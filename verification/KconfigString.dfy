/** String values in configuration files: quoting on the way out, and the in-place unquoting of the
    line buffer on the way in.  C strings are arrays ended by a zero character. */
module KconfigString {
  import opened Options

  const NUL: char := '\0'

  predicate Marked(c: char) { c == '"' || c == '\\' }

  // ----- the value level -----

  /** A backslash before every quote and every backslash. */
  function Escape(s: seq<char>): seq<char> {
    if s == [] then []
    else (if Marked(s[0]) then ['\\', s[0]] else [s[0]]) + Escape(s[1..])
  }

  function Quoted(s: seq<char>): seq<char> { ['"'] + Escape(s) + ['"'] }

  /** What stands before the first bare quote, or None without one. */
  function Unescape(s: seq<char>): Option<seq<char>> {
    if s == [] || s == ['\\'] then None
    else if s[0] == '"' then Some([])
    else if s[0] == '\\' then Cons(s[1], Unescape(s[2..]))
    else Cons(s[0], Unescape(s[1..]))
  }

  function Cons(c: char, o: Option<seq<char>>): Option<seq<char>> {
    if o.None? then None else Some([c] + o.value)
  }

  function Prepend(s: seq<char>, o: Option<seq<char>>): Option<seq<char>> {
    if o.None? then None else Some(s + o.value)
  }

  /** Nothing else is added: one backslash for every quote and every backslash. */
  lemma {:induction false} EscapeLength(s: seq<char>)
    ensures |Escape(s)| == |s| + multiset(s)['"'] + multiset(s)['\\']
  {
    if s != [] {
      EscapeLength(s[1..]);
      assert s == [s[0]] + s[1..];
      assert multiset(s) == multiset{s[0]} + multiset(s[1..]);
    } else {
      assert multiset(s) == multiset{};
    }
  }

  /** Unescaping undoes escaping, whatever follows the closing quote. */
  lemma {:induction false} UnescapeEscape(s: seq<char>, t: seq<char>)
    ensures Unescape(Escape(s) + ['"'] + t) == Some(s)
  {
    var w := Escape(s) + ['"'] + t;
    if s == [] {
      assert w[0] == '"';
    } else {
      UnescapeEscape(s[1..], t);
      var v := Escape(s[1..]) + ['"'] + t;
      if Marked(s[0]) {
        assert w[2..] == v;
      } else {
        assert w[1..] == v;
      }
      assert [s[0]] + s[1..] == s;
    }
  }

  /** Hence different values are never written alike. */
  lemma QuotedInjective(s: seq<char>, t: seq<char>)
    requires Quoted(s) == Quoted(t)
    ensures s == t
  {
    assert Quoted(s)[1..] == Escape(s) + ['"'] + [] && Quoted(t)[1..] == Escape(t) + ['"'] + [];
    UnescapeEscape(s, []);
    UnescapeEscape(t, []);
  }

  /** How far the text runs without a quote or a backslash: strcspn. */
  function Span(s: seq<char>): (n: nat)
    ensures n <= |s| && (forall k :: 0 <= k < n ==> !Marked(s[k])) && (n < |s| ==> Marked(s[n]))
  {
    if s == [] || Marked(s[0]) then 0 else 1 + Span(s[1..])
  }

  /** One round of the escaping loops: a plain stretch, then one marked character. */
  lemma {:induction false} EscapeRound(s: seq<char>)
    ensures var n := Span(s);
            Escape(s) == if n == |s| then s else s[..n] + ['\\', s[n]] + Escape(s[n + 1..])
  {
    if s != [] && !Marked(s[0]) {
      var n, t := Span(s), s[1..];
      EscapeRound(t);
      if n == |s| {
        assert s == [s[0]] + t;
      } else {
        assert s[..n] == [s[0]] + t[..n - 1] && t[n..] == s[n + 1..];
      }
    }
  }

  // ----- writing -----

  /** Appends text to the C string of length n held in a. */
  method Strcat(a: array<char>, n: nat, text: seq<char>) returns (m: nat)
    requires n + |text| < a.Length
    modifies a
    ensures m == n + |text| && a[..m] == old(a[..n]) + text && a[m] == NUL
  {
    for k := 0 to |text|
      invariant a[..n] == old(a[..n]) && a[n..n + k] == text[..k]
    {
      a[n + k] := text[k];
    }
    m := n + |text|;
    a[m] := NUL;
    assert a[..m] == a[..n] + a[n..m];
  }

  /** The room needed: the text, two quotes, a terminator, and one more for every marked character. */
  method Room(text: seq<char>) returns (reslen: nat)
    ensures reslen == |Quoted(text)| + 1
  {
    reslen := |text| + 2 + 1;
    var p := text;
    while true
      invariant reslen - |p| + |Escape(p)| == |Escape(text)| + 3
      decreases |p|
    {
      EscapeRound(p);
      p := p[Span(p)..];
      if p == [] {
        break;
      }
      reslen := reslen + 1;
      p := p[1..];
    }
  }

  lemma Regroup(w: seq<char>, u: seq<char>, d: char, v: seq<char>, text: seq<char>, whole: seq<char>)
    requires text == u + ['\\', d] + v && w + text == whole
    ensures w + u + ['\\'] + [d] + v == whole
  {
    assert w + (u + ['\\', d] + v) == w + u + (['\\'] + [d]) + v;
  }

  /** The text is copied stretch by stretch, so that the buffer and what is still to come always
      make up the whole. */
  lemma CopyStretch(w: seq<char>, p: seq<char>, l: nat, whole: seq<char>)
    requires w + Escape(p) == whole && l == Span(p) < |p|
    ensures w + p[..l] + ['\\'] + [p[l]] + Escape(p[l + 1..]) == whole
  {
    EscapeRound(p);
    Regroup(w, p[..l], p[l], Escape(p[l + 1..]), Escape(p), whole);
  }

  lemma CopyLast(w: seq<char>, p: seq<char>, whole: seq<char>)
    requires w + Escape(p) == whole && Span(p) == |p|
    ensures w + p[..|p|] == whole
  {
    EscapeRound(p);
    assert p[..|p|] == p;
  }

  /** Counts the room needed, then fills it: the result is the quoted text and its terminator, and
      not one character more. */
  method EscapeStringValue(text: seq<char>) returns (res: array<char>)
    ensures fresh(res) && res.Length == |Quoted(text)| + 1
    ensures res[..res.Length - 1] == Quoted(text) && res[res.Length - 1] == NUL
  {
    var reslen := Room(text);
    res := new char[reslen](_ => NUL);
    var n: nat := Strcat(res, 0, ['"']);
    var p := text;
    ghost var whole := ['"'] + Escape(text);
    while true
      invariant n < res.Length == |whole| + 2
      invariant res[..n] + Escape(p) == whole
      decreases |p|
    {
      var l := Span(p);
      ghost var w := res[..n];
      if l < |p| {
        CopyStretch(w, p, l, whole);
      } else {
        CopyLast(w, p, whole);
      }
      n := Strcat(res, n, p[..l]);
      if l == |p| {
        break;
      }
      n := Strcat(res, n, ['\\']);
      n := Strcat(res, n, [p[l]]);
      p := p[l + 1..];
    }
    n := Strcat(res, n, ['"']);
  }

  // ----- reading, in place -----

  /** A C string from i that ends at z. */
  ghost predicate TextTo(a: array<char>, i: nat, z: nat)
    reads a
  {
    i <= z < a.Length && a[z] == NUL && (forall k :: i <= k < z ==> a[k] != NUL)
  }

  /** Removes the character at i from the C string that ends at e: memmove of the rest and its zero. */
  method MoveDown(a: array<char>, i: nat, e: nat)
    requires i < e < a.Length
    modifies a
    ensures forall j :: i <= j < e ==> a[j] == old(a[j + 1])
    ensures forall j :: 0 <= j < i ==> a[j] == old(a[j])
    ensures a[e] == old(a[e])
  {
    for k := i to e
      invariant forall j :: 0 <= j < i ==> a[j] == old(a[j])
      invariant forall j :: i <= j < k ==> a[j] == old(a[j + 1])
      invariant forall j :: k <= j < a.Length ==> a[j] == old(a[j])
    {
      a[k] := a[k + 1];
    }
  }

  /** The end of the C string at i: strlen. */
  method FindEnd(a: array<char>, i: nat, ghost z: nat) returns (e: nat)
    requires TextTo(a, i, z)
    ensures e == z
  {
    e := i;
    while a[e] != NUL
      invariant i <= e <= z
      decreases z - e
    {
      e := e + 1;
    }
  }

  /** The first quote, backslash or end from i on: strpbrk. */
  method FindMark(a: array<char>, i: nat, ghost z: nat) returns (j: nat)
    requires TextTo(a, i, z)
    ensures i <= j <= z && (forall k :: i <= k < j ==> !Marked(a[k]))
    ensures j < z ==> Marked(a[j])
  {
    j := i;
    while a[j] != NUL && !Marked(a[j])
      invariant i <= j <= z && (forall k :: i <= k < j ==> !Marked(a[k]))
      decreases z - j
    {
      j := j + 1;
    }
  }

  lemma PrependTwice(u: seq<char>, v: seq<char>, o: Option<seq<char>>)
    ensures Prepend(u, Prepend(v, o)) == Prepend(u + v, o)
  {
    if o.Some? {
      assert u + (v + o.value) == (u + v) + o.value;
    }
  }

  /** A plain stretch of n characters, and what follows it. */
  lemma {:induction false} UnescapeRound(s: seq<char>, n: nat)
    requires n <= |s| && (forall k :: 0 <= k < n ==> !Marked(s[k])) && (n < |s| ==> Marked(s[n]))
    ensures Unescape(s) ==
            if n == |s| || (s[n] == '\\' && n + 1 == |s|) then None
            else if s[n] == '"' then Some(s[..n])
            else Prepend(s[..n] + [s[n + 1]], Unescape(s[n + 2..]))
    decreases n
  {
    if n == 0 {
      assert s[..0] == [] && (|s| > 1 ==> s[..0] + [s[1]] == [s[1]]);
    } else {
      var t := s[1..];
      UnescapeRound(t, n - 1);
      assert s[..n] == [s[0]] + t[..n - 1];
      if n + 1 < |s| {
        assert t[n + 1..] == s[n + 2..] && s[..n] + [s[n + 1]] == [s[0]] + (t[..n - 1] + [t[n]]);
        PrependTwice([s[0]], t[..n - 1] + [t[n]], Unescape(s[n + 2..]));
      }
    }
  }

  /** Removes the backslash at i and steps over the character behind it. */
  method DropMark(a: array<char>, ghost p: nat, i: nat, e: nat) returns (next: nat, ghost z: nat)
    requires p <= i < e && TextTo(a, i, e)
    modifies a
    ensures next == i + 1 && z - next < e - i && z <= e && TextTo(a, next, z)
    ensures a[..p] == old(a[..p])
    ensures if i + 1 == e then next == z
            else a[p..next] == old(a[p..i] + [a[i + 1]]) && a[next..z] == old(a[i + 2..e])
  {
    MoveDown(a, i, e);
    next := i + 1;
    z := if i + 1 == e then e else e - 1;
  }

  /** Unescapes the text between p and its end e in place: the result is the text a reader of the
      whole line would get, it is closed by a zero, and what precedes it is untouched. */
  method UnescapeInPlace(a: array<char>, p: nat, ghost e: nat) returns (end: Option<nat>)
    requires TextTo(a, p, e)
    modifies a
    ensures end.None? ==> Unescape(old(a[p..e])) == None
    ensures end.Some? ==> p <= end.value <= e && a[end.value] == NUL
                          && Unescape(old(a[p..e])) == Some(a[p..end.value])
    ensures a[..p] == old(a[..p])
  {
    var p2: nat := p;
    ghost var z: nat, goal := e, Unescape(a[p..e]);
    PrependNothing(goal);
    assert a[p..p] == [];
    while true
      invariant p <= p2 && z <= e && TextTo(a, p2, z) && a[..p] == old(a[..p])
      invariant Prepend(a[p..p2], Unescape(a[p2..z])) == goal
      decreases z - p2
    {
      var j := FindMark(a, p2, z);
      SplitAt(a, p, p2, j, z, goal);
      if a[j] == NUL {
        return None;
      }
      if a[j] == '"' {
        ghost var text := a[p..j];
        a[j] := NUL;
        assert a[p..j] == text && a[..p] == old(a[..p]);
        return Some(j);
      }
      var last := FindEnd(a, j, z);
      p2, z := DropMark(a, p, j, last);
    }
  }

  lemma PrependNothing(o: Option<seq<char>>)
    ensures Prepend([], o) == o
  {
    if o.Some? {
      assert [] + o.value == o.value;
    }
  }

  /** What finding the next mark at j means for the text being read. */
  lemma SplitAt(a: array<char>, p: nat, i: nat, j: nat, z: nat, goal: Option<seq<char>>)
    requires TextTo(a, i, z) && p <= i <= j <= z && (forall k :: i <= k < j ==> !Marked(a[k])) && (j < z ==> Marked(a[j]))
    requires Prepend(a[p..i], Unescape(a[i..z])) == goal
    ensures goal ==
            if j == z || (a[j] == '\\' && j + 1 == z) then None
            else if a[j] == '"' then Some(a[p..j])
            else Prepend(a[p..j] + [a[j + 1]], Unescape(a[j + 2..z]))
  {
    var s, n := a[i..z], j - i;
    UnescapeRound(s, n);
    assert a[p..i] + s[..n] == a[p..j];
    if j + 1 < z {
      assert s[n + 2..] == a[j + 2..z];
      assert a[p..i] + (s[..n] + [s[n + 1]]) == a[p..j] + [a[j + 1]];
      PrependTwice(a[p..i], s[..n] + [s[n + 1]], Unescape(a[j + 2..z]));
    }
  }

  /** The string case of setting a symbol from a configuration line: a value that does not start
      with a quote is ignored, one without a closing quote is an error. */
  datatype Outcome = Ignored | Invalid | Stored(value: seq<char>)

  ghost function Setting(line: seq<char>): Outcome {
    if line == [] || line[0] != '"' then Ignored
    else match Unescape(line[1..]) case None => Invalid case Some(v) => Stored(v)
  }

  method SetStringValue(a: array<char>, ghost e: nat) returns (r: Outcome)
    requires TextTo(a, 0, e)
    modifies a
    ensures r == Setting(old(a[..e]))
  {
    if a[0] != '"' {
      return Ignored;
    }
    assert a[..e][1..] == a[1..e];
    var end := UnescapeInPlace(a, 1, e);
    r := match end case None => Invalid case Some(n) => Stored(a[1..n]);
  }

  /** What is written comes back. */
  lemma StringRoundTrip(s: seq<char>)
    ensures Setting(Quoted(s)) == Stored(s)
  {
    assert Quoted(s)[1..] == Escape(s) + ['"'] + [];
    UnescapeEscape(s, []);
  }

  lemma {:induction false} EscapeKeepsText(s: seq<char>)
    requires NUL !in s
    ensures NUL !in Escape(s)
  {
    if s != [] {
      EscapeKeepsText(s[1..]);
    }
  }

  /** Writing a string value and reading the line back, buffer to buffer. */
  method WriteAndRead(text: seq<char>) returns (r: Outcome)
    requires NUL !in text
    ensures r == Stored(text)
  {
    var line := EscapeStringValue(text);
    ghost var e := line.Length - 1;
    EscapeKeepsText(text);
    StringRoundTrip(text);
    assert forall k :: 0 <= k < e ==> line[..e][k] != NUL;
    r := SetStringValue(line, e);
  }
}
