/** Where every node of the menu tree ends up, told without the restructuring: one pass over the
    original tree with a stack of the entries whose submenu is still open. */
module KconfigMenuPlaces {
  import opened KconfigMenu

  /** A node and its ancestors, outermost first. */
  datatype Place = Place(id: nat, above: seq<nat>)

  /** The nodes of a tree in pre-order with their ancestors, below the ancestors `above`. */
  function Places(f: Forest, above: seq<nat>): seq<Place> {
    if f.Nil? then []
    else [Place(f.id, above)] + Places(f.kids, above + [f.id]) + Places(f.rest, above)
  }

  /** The places of a tree determine it. */
  lemma {:induction false} PlacesInjective(f: Forest, g: Forest, above: seq<nat>)
    requires Places(f, above) == Places(g, above)
    ensures f == g
    decreases f
  {
    if f.Cons? && g.Cons? {
      PlacesCut(f, g, above);
      PlacesInjective(f.kids, g.kids, above + [f.id]);
      PlacesInjective(f.rest, g.rest, above);
    }
  }

  lemma PlacesCut(f: Forest, g: Forest, above: seq<nat>)
    requires f.Cons? && g.Cons? && Places(f, above) == Places(g, above)
    ensures f.id == g.id && Places(f.kids, above + [f.id]) == Places(g.kids, above + [f.id])
    ensures Places(f.rest, above) == Places(g.rest, above)
  {
    var x, y := Place(f.id, above), Place(g.id, above);
    HeadCut(x, Places(f.kids, above + [f.id]), Places(f.rest, above),
            y, Places(g.kids, above + [g.id]), Places(g.rest, above));
    PlacesDeep(f.kids, above + [f.id]);
    PlacesDeep(g.kids, above + [g.id]);
    PlacesTop(f.rest, above);
    PlacesTop(g.rest, above);
    SameCut(Places(f.kids, above + [f.id]), Places(f.rest, above),
            Places(g.kids, above + [g.id]), Places(g.rest, above), |above|);
  }

  lemma HeadCut(x: Place, a: seq<Place>, b: seq<Place>, y: Place, c: seq<Place>, d: seq<Place>)
    requires [x] + a + b == [y] + c + d
    ensures x == y && a + b == c + d
  {
    assert ([x] + a + b)[0] == x && ([y] + c + d)[0] == y;
    assert ([x] + a + b)[1..] == a + b && ([y] + c + d)[1..] == c + d;
  }

  lemma {:induction false} PlacesDeep(f: Forest, above: seq<nat>)
    ensures forall i :: 0 <= i < |Places(f, above)| ==> |Places(f, above)[i].above| >= |above|
  {
    if f.Cons? {
      PlacesDeep(f.kids, above + [f.id]);
      PlacesDeep(f.rest, above);
    }
  }

  lemma PlacesTop(f: Forest, above: seq<nat>)
    ensures f.Cons? ==> Places(f, above) != [] && Places(f, above)[0].above == above
    ensures f.Nil? ==> Places(f, above) == []
  {
  }

  /** Two lists of deep places, each followed by nothing or by a place at depth n, are cut alike. */
  lemma SameCut(a: seq<Place>, b: seq<Place>, c: seq<Place>, d: seq<Place>, n: nat)
    requires a + b == c + d
    requires (forall i :: 0 <= i < |a| ==> |a[i].above| > n) && (forall i :: 0 <= i < |c| ==> |c[i].above| > n)
    requires (b == [] || |b[0].above| == n) && (d == [] || |d[0].above| == n)
    ensures a == c && b == d
  {
    NotShorter(a, b, c, d, n);
    NotShorter(c, d, a, b, n);
    assert a == (a + b)[..|a|] && c == (c + d)[..|c|];
    assert b == (a + b)[|a|..] && d == (c + d)[|c|..];
  }

  lemma NotShorter(a: seq<Place>, b: seq<Place>, c: seq<Place>, d: seq<Place>, n: nat)
    requires a + b == c + d && (b == [] || |b[0].above| == n)
    requires forall i :: 0 <= i < |c| ==> |c[i].above| > n
    ensures |a| >= |c|
  {
    assert forall i :: 0 <= i < |c| ==> (c + d)[i] == c[i];
    assert b != [] ==> (a + b)[|a|] == b[0];
  }

  // ----- where nodes belong -----

  /** An entry can open a submenu: it has a symbol and no children of its own. */
  predicate Opens(c: Config, f: Forest)
    requires f.Cons?
  {
    f.kids.Nil? && c.hasSym(f.id)
  }

  /** Closes the open entries, from the inside out, on whose symbol node x does not depend. */
  function Closing(c: Config, open: seq<nat>, x: nat): seq<nat> {
    if open == [] || c.joins(open[|open| - 1], x) then open else Closing(c, open[..|open| - 1], x)
  }

  /** The nodes of the sibling list f where they belong: below the innermost entry still open whose
      symbol they depend on, else below their original parent. */
  function Belongs(c: Config, f: Forest, open: seq<nat>, above: seq<nat>): seq<Place> {
    if f.Nil? then []
    else
      var open' := Closing(c, open, f.id);
      [Place(f.id, above + open')] + Belongs(c, f.kids, [], above + open' + [f.id]) +
      Belongs(c, f.rest, if Opens(c, f) then open' + [f.id] else open', above)
  }

  /** Drops the ancestors without a prompt, except among the first n. */
  function Prompted(c: Config, n: nat, above: seq<nat>): seq<nat> {
    if |above| <= n then above
    else
      var last := above[|above| - 1];
      Prompted(c, n, above[..|above| - 1]) + if c.promptless(last) then [] else [last]
  }

  /** The same for every place of a list. */
  function Shown(c: Config, n: nat, ps: seq<Place>): seq<Place> {
    seq(|ps|, i requires 0 <= i < |ps| => Place(ps[i].id, Prompted(c, n, ps[i].above)))
  }

  lemma ShownAppend(c: Config, n: nat, a: seq<Place>, b: seq<Place>)
    ensures Shown(c, n, a + b) == Shown(c, n, a) + Shown(c, n, b)
  {
  }

  lemma ShownCons(c: Config, n: nat, p: Place, a: seq<Place>, b: seq<Place>)
    ensures Shown(c, n, [p] + a + b) == [Place(p.id, Prompted(c, n, p.above))] + Shown(c, n, a) + Shown(c, n, b)
  {
    ShownAppend(c, n, [p] + a, b);
    ShownAppend(c, n, [p], a);
  }

  lemma PromptedNext(c: Config, n: nat, above: seq<nat>, x: nat)
    requires n <= |above|
    ensures Prompted(c, n, above + [x]) == Prompted(c, n, above) + if c.promptless(x) then [] else [x]
  {
    assert (above + [x])[..|above|] == above;
  }

  /** In a flat tree every node with children has a prompt. */
  lemma {:induction false} FlatShown(c: Config, n: nat, f: Forest, above: seq<nat>)
    requires Flat(c, f) && n <= |above|
    ensures Shown(c, n, Places(f, above)) == Places(f, Prompted(c, n, above))
    decreases f
  {
    if f.Cons? {
      ShownCons(c, n, Place(f.id, above), Places(f.kids, above + [f.id]), Places(f.rest, above));
      FlatShown(c, n, f.kids, above + [f.id]);
      PromptedNext(c, n, above, f.id);
      FlatShown(c, n, f.rest, above);
    }
  }

  lemma {:induction false} PlacesAppend(f: Forest, g: Forest, above: seq<nat>)
    ensures Places(Append(f, g), above) == Places(f, above) + Places(g, above)
    decreases f
  {
    if f.Cons? {
      PlacesAppend(f.rest, g, above);
    }
  }

  /** Hoisting drops the promptless nodes of one level from the ancestors. */
  lemma {:induction false} FlattenShown(c: Config, n: nat, f: Forest, above: seq<nat>)
    requires FlatBelow(c, f) && n <= |above|
    ensures Places(Flatten(c, f), Prompted(c, n, above)) == Shown(c, n, Places(f, above))
    decreases |Pre(f)|
  {
    if f.Cons? {
      var x, up := f.id, Prompted(c, n, above);
      ShownCons(c, n, Place(x, above), Places(f.kids, above + [x]), Places(f.rest, above));
      FlatShown(c, n, f.kids, above + [x]);
      PromptedNext(c, n, above, x);
      assert up + [] == up;
      if f.kids.Cons? && c.promptless(x) {
        PreAppend(f.kids, f.rest);
        FlatAppend(c, f.kids, f.rest);
        FlattenShown(c, n, Append(f.kids, f.rest), above);
        ShownSiblings(c, n, f.kids, f.rest, above);
      } else {
        FlattenShown(c, n, f.rest, above);
      }
    }
  }

  lemma ShownSiblings(c: Config, n: nat, f: Forest, g: Forest, above: seq<nat>)
    requires Flat(c, f) && n <= |above|
    ensures Shown(c, n, Places(Append(f, g), above)) == Places(f, Prompted(c, n, above)) + Shown(c, n, Places(g, above))
  {
    PlacesAppend(f, g, above);
    ShownAppend(c, n, Places(f, above), Places(g, above));
    FlatShown(c, n, f, above);
  }

  /** Hoisting is invisible where promptless ancestors are dropped anyway. */
  lemma FlattenHidden(c: Config, n: nat, f: Forest, above: seq<nat>)
    requires FlatBelow(c, f) && n <= |above|
    ensures Shown(c, n, Places(Flatten(c, f), above)) == Shown(c, n, Places(f, above))
  {
    FlattenShown(c, n, f, above);
    FlattenFlat(c, f);
    FlatShown(c, n, Flatten(c, f), above);
  }

  // ----- the restructuring puts every node where it belongs -----

  /** The places of a node and all below it. */
  function Node(x: nat, kids: Forest, above: seq<nat>): seq<Place> {
    [Place(x, above)] + Places(kids, above + [x])
  }

  function First(r: Forest, above: seq<nat>): seq<Place>
    requires r.Cons?
  {
    Node(r.id, r.kids, above)
  }

  lemma ShownNode(c: Config, n: nat, x: nat, kids: Forest, above: seq<nat>)
    ensures Shown(c, n, Node(x, kids, above)) == [Place(x, Prompted(c, n, above))] + Shown(c, n, Places(kids, above + [x]))
  {
    ShownAppend(c, n, [Place(x, above)], Places(kids, above + [x]));
  }

  lemma {:induction false} FinalizeBelongs(c: Config, n: nat, f: Forest, open: seq<nat>, above: seq<nat>)
    requires f.Cons? && n <= |above| + |open| + 1 && Closing(c, open, f.id) == open
    ensures var r := Finalize(c, f);
            Shown(c, n, Belongs(c, f, open, above)) ==
            Shown(c, n, First(r, above + open)) + Shown(c, n, Belongs(c, r.rest, open, above))
    decreases |Pre(f)|, 1
  {
    if f.kids.Cons? {
      ParentBelongs(c, n, f, open, above);
    } else if c.hasSym(f.id) {
      EntryBelongs(c, n, f, open, above);
    } else {
      BelongsFirst(c, n, f, open, above);
      ShownNode(c, n, f.id, Nil, above + open);
    }
  }

  /** A node with children of its own. */
  lemma {:induction false} ParentBelongs(c: Config, n: nat, f: Forest, open: seq<nat>, above: seq<nat>)
    requires f.Cons? && n <= |above| + |open| + 1 && Closing(c, open, f.id) == open && f.kids.Cons?
    ensures Shown(c, n, Belongs(c, f, open, above)) ==
            Shown(c, n, Node(f.id, Flatten(c, FinalizeList(c, f.kids)), above + open)) +
            Shown(c, n, Belongs(c, f.rest, open, above))
    decreases |Pre(f)|, 0
  {
    BelongsFirst(c, n, f, open, above);
    ShownNode(c, n, f.id, Flatten(c, FinalizeList(c, f.kids)), above + open);
    KidsBelong(c, n, f.kids, above + open + [f.id]);
  }

  lemma EntryFirst(c: Config, n: nat, f: Forest, open: seq<nat>, above: seq<nat>)
    requires f.Cons? && Closing(c, open, f.id) == open && Opens(c, f)
    ensures Shown(c, n, Belongs(c, f, open, above)) ==
            [Place(f.id, Prompted(c, n, above + open))] + Shown(c, n, Belongs(c, f.rest, open + [f.id], above))
  {
    BelongsFirst(c, n, f, open, above);
  }

  /** An entry that may open a submenu. */
  lemma {:induction false} EntryBelongs(c: Config, n: nat, f: Forest, open: seq<nat>, above: seq<nat>)
    requires f.Cons? && n <= |above| + |open| + 1 && Closing(c, open, f.id) == open && Opens(c, f)
    ensures var t := Take(c, f.id, f.rest);
            Shown(c, n, Belongs(c, f, open, above)) ==
            Shown(c, n, Node(f.id, Flatten(c, t.0), above + open)) + Shown(c, n, Belongs(c, t.1, open, above))
    decreases |Pre(f)|, 0
  {
    var t, up := Take(c, f.id, f.rest), above + open + [f.id];
    EntryFirst(c, n, f, open, above);
    ShownNode(c, n, f.id, Flatten(c, t.0), above + open);
    SubmenuBelongs(c, n, f.id, f.rest, open, above);
    Regroup([Place(f.id, Prompted(c, n, above + open))], Shown(c, n, Places(Flatten(c, t.0), up)),
            Shown(c, n, Belongs(c, t.1, open, above)));
  }

  /** The first node and what follows, where it closes no open entry. */
  lemma BelongsFirst(c: Config, n: nat, f: Forest, open: seq<nat>, above: seq<nat>)
    requires f.Cons? && Closing(c, open, f.id) == open
    ensures var up := above + open + [f.id];
            var later := if Opens(c, f) then Shown(c, n, Belongs(c, f.rest, open + [f.id], above))
                         else Shown(c, n, Belongs(c, f.rest, open, above));
            Shown(c, n, Belongs(c, f, open, above)) ==
            [Place(f.id, Prompted(c, n, above + open))] + Shown(c, n, Belongs(c, f.kids, [], up)) + later
    ensures f.kids.Nil? ==> Shown(c, n, Belongs(c, f.kids, [], above + open + [f.id])) == []
  {
    var open' := if Opens(c, f) then open + [f.id] else open;
    ShownCons(c, n, Place(f.id, above + open), Belongs(c, f.kids, [], above + open + [f.id]), Belongs(c, f.rest, open', above));
  }

  lemma {:induction false} KidsBelong(c: Config, n: nat, kids: Forest, up: seq<nat>)
    requires n <= |up|
    ensures Shown(c, n, Belongs(c, kids, [], up)) == Shown(c, n, Places(Flatten(c, FinalizeList(c, kids)), up))
    decreases |Pre(kids)|, 3
  {
    ListBelongs(c, n, kids, up);
    FinalizeListFlat(c, kids);
    FlattenHidden(c, n, FinalizeList(c, kids), up);
  }

  lemma {:induction false} SubmenuBelongs(c: Config, n: nat, x: nat, rest: Forest, open: seq<nat>, above: seq<nat>)
    requires n <= |above| + |open| + 1
    ensures var t := Take(c, x, rest);
            Shown(c, n, Belongs(c, rest, open + [x], above)) ==
            Shown(c, n, Places(Flatten(c, t.0), above + open + [x])) + Shown(c, n, Belongs(c, t.1, open, above))
    decreases |Pre(rest)|, 4
  {
    TakeBelongs(c, n, x, rest, open, above);
    TakeFlat(c, x, rest);
    FlattenHidden(c, n, Take(c, x, rest).0, above + open + [x]);
  }

  lemma {:induction false} ListBelongs(c: Config, n: nat, f: Forest, above: seq<nat>)
    requires n <= |above| + 1
    ensures Shown(c, n, Belongs(c, f, [], above)) == Shown(c, n, Places(FinalizeList(c, f), above))
    decreases |Pre(f)|, 2
  {
    if f.Cons? {
      var r := Finalize(c, f);
      FinalizeBelongs(c, n, f, [], above);
      ListBelongs(c, n, r.rest, above);
      assert above + [] == above;
      ShownAppend(c, n, First(r, above), Places(FinalizeList(c, r.rest), above));
    }
  }

  lemma {:induction false} TakeBelongs(c: Config, n: nat, p: nat, f: Forest, open: seq<nat>, above: seq<nat>)
    requires n <= |above| + |open| + 1
    ensures var t := Take(c, p, f);
            Shown(c, n, Belongs(c, f, open + [p], above)) ==
            Shown(c, n, Places(t.0, above + open + [p])) + Shown(c, n, Belongs(c, t.1, open, above))
    decreases |Pre(f)|, 3
  {
    if f.Cons? && c.joins(p, f.id) {
      TakenBelongs(c, n, p, f, open, above);
    } else if f.Cons? {
      ClosedBelongs(c, p, f, open, above);
    }
  }

  lemma ClosedBelongs(c: Config, p: nat, f: Forest, open: seq<nat>, above: seq<nat>)
    requires f.Cons? && !c.joins(p, f.id)
    ensures Belongs(c, f, open + [p], above) == Belongs(c, f, open, above)
  {
    assert (open + [p])[..|open|] == open;
    assert Closing(c, open + [p], f.id) == Closing(c, open, f.id);
  }

  lemma {:induction false} TakenBelongs(c: Config, n: nat, p: nat, f: Forest, open: seq<nat>, above: seq<nat>)
    requires n <= |above| + |open| + 1 && f.Cons? && c.joins(p, f.id)
    ensures var t := Take(c, p, f);
            Shown(c, n, Belongs(c, f, open + [p], above)) ==
            Shown(c, n, Places(t.0, above + open + [p])) + Shown(c, n, Belongs(c, t.1, open, above))
    decreases |Pre(f)|, 2
  {
    var r := Finalize(c, f);
    var u, up := Take(c, p, r.rest), above + open + [p];
    FinalizeBelongs(c, n, f, open + [p], above);
    TakeBelongs(c, n, p, r.rest, open, above);
    assert above + (open + [p]) == up;
    TakenShown(c, n, p, f, up);
    Regroup(Shown(c, n, First(r, up)), Shown(c, n, Places(u.0, up)), Shown(c, n, Belongs(c, u.1, open, above)));
  }

  lemma TakenShown(c: Config, n: nat, p: nat, f: Forest, up: seq<nat>)
    requires f.Cons? && c.joins(p, f.id)
    ensures var r := Finalize(c, f);
            var t, u := Take(c, p, f), Take(c, p, r.rest);
            Shown(c, n, Places(t.0, up)) == Shown(c, n, First(r, up)) + Shown(c, n, Places(u.0, up)) && t.1 == u.1
  {
    var r := Finalize(c, f);
    ShownAppend(c, n, First(r, up), Places(Take(c, p, r.rest).0, up));
  }

  lemma Regroup(a: seq<Place>, b: seq<Place>, d: seq<Place>)
    ensures a + (b + d) == a + b + d
  {
  }

  /** Restructuring the first node of a list puts it and all that it takes where they belong, and
      leaves the rest of the list as it was. */
  lemma FinalizePlaces(c: Config, f: Forest)
    requires f.Cons?
    ensures var r := Finalize(c, f);
            First(r, []) + Shown(c, 1, Belongs(c, r.rest, [], [])) == Shown(c, 1, Belongs(c, f, [], []))
  {
    var r := Finalize(c, f);
    FinalizeBelongs(c, 1, f, [], []);
    ShownNode(c, 1, r.id, r.kids, []);
    FinalizeFlat(c, f);
    FlatShown(c, 1, r.kids, [f.id]);
    var none: seq<nat> := [];
    assert none + none == none && none + [f.id] == [f.id];
  }

  /** The whole tree: every node ends up below the innermost open entry that it depends on, or below
      its original parent, and among these ancestors the ones without a prompt are passed over. */
  lemma TreePlaces(c: Config, f: Forest)
    requires f.Cons? && f.rest.Nil?
    ensures Places(Finalize(c, f), []) == Shown(c, 1, Belongs(c, f, [], []))
  {
    FinalizePlaces(c, f);
    assert Finalize(c, f).rest.Nil?;
  }

  // ----- submenus among siblings -----

  function Siblings(f: Forest): seq<nat> {
    if f.Nil? then [] else [f.id] + Siblings(f.rest)
  }

  /** The list without its first n nodes. */
  function After(f: Forest, n: nat): Forest
    requires n <= |Siblings(f)|
  {
    if n == 0 then f else After(f.rest, n - 1)
  }

  lemma {:induction false} SiblingsAfter(f: Forest, n: nat)
    requires n <= |Siblings(f)|
    ensures Siblings(After(f, n)) == Siblings(f)[n..]
  {
    if n > 0 {
      SiblingsAfter(f.rest, n - 1);
    }
  }

  lemma {:induction false} AfterAfter(f: Forest, n: nat, k: nat)
    requires n <= |Siblings(f)| && k <= |Siblings(After(f, n))|
    ensures n + k <= |Siblings(f)| && After(After(f, n), k) == After(f, n + k)
  {
    SiblingsAfter(f, n);
    if n > 0 {
      AfterAfter(f.rest, n - 1, k);
    }
  }

  /** Of the siblings s the first n are among `below`, and each depends on p or on one of them before it. */
  ghost predicate Joined(c: Config, p: nat, s: seq<nat>, n: nat, below: seq<nat>) {
    n <= |s| && forall i :: 0 <= i < n ==> s[i] in below && (c.joins(p, s[i]) || JoinsEarlier(c, s, i))
  }

  ghost predicate JoinsEarlier(c: Config, s: seq<nat>, i: nat)
    requires i < |s|
  {
    exists j :: 0 <= j < i && c.joins(s[j], s[i])
  }

  /** An entry without children of its own takes the siblings after it up to the first that does not
      depend on it: each of them depends on it or on one that it took before.  Any other node takes
      none. */
  lemma {:induction false} SubmenuTaken(c: Config, f: Forest) returns (n: nat)
    requires f.Cons?
    ensures var r := Finalize(c, f);
            && n <= |Siblings(f.rest)| && r.rest == After(f.rest, n)
            && Joined(c, f.id, Siblings(f.rest), n, Pre(r.kids))
            && (Opens(c, f) && r.rest.Cons? ==> !c.joins(f.id, r.rest.id))
            && (!Opens(c, f) ==> n == 0)
    decreases |Pre(f)|, 1
  {
    if Opens(c, f) {
      n := TakenSiblings(c, f.id, f.rest);
    } else {
      n := 0;
    }
  }

  lemma {:induction false} TakenSiblings(c: Config, p: nat, f: Forest) returns (n: nat)
    ensures var t := Take(c, p, f);
            && n <= |Siblings(f)| && t.1 == After(f, n)
            && Joined(c, p, Siblings(f), n, Pre(t.0))
            && (t.1.Cons? ==> !c.joins(p, t.1.id))
    decreases |Pre(f)|, 2
  {
    if f.Nil? || !c.joins(p, f.id) {
      n := 0;
    } else {
      var r := Finalize(c, f);
      var k := SubmenuTaken(c, f);
      var l := TakenSiblings(c, p, r.rest);
      AfterAfter(f.rest, k, l);
      SiblingsAfter(f.rest, k);
      n := 1 + k + l;
      var t := Take(c, p, r.rest);
      assert Pre(Take(c, p, f).0) == [f.id] + Pre(r.kids) + Pre(t.0);
      JoinedTogether(c, p, f.id, Siblings(f.rest), k, l, Pre(r.kids), Pre(t.0));
    }
  }

  /** Sibling x with the k siblings it took, and l more after them. */
  lemma JoinedTogether(c: Config, p: nat, x: nat, s: seq<nat>, k: nat, l: nat, below: seq<nat>, more: seq<nat>)
    requires c.joins(p, x) && Joined(c, x, s, k, below) && Joined(c, p, s[k..], l, more)
    ensures Joined(c, p, [x] + s, 1 + k + l, [x] + below + more)
  {
    var all := [x] + s;
    forall i | 0 <= i < 1 + k + l
      ensures all[i] in [x] + below + more && (c.joins(p, all[i]) || JoinsEarlier(c, all, i))
    {
      if 0 < i <= k {
        assert all[i] == s[i - 1];
        if c.joins(x, s[i - 1]) {
          assert all[0] == x;
        } else {
          var j :| 0 <= j < i - 1 && c.joins(s[j], s[i - 1]);
          assert all[j + 1] == s[j];
        }
      } else if i > k {
        var d := i - 1 - k;
        assert all[i] == s[k..][d];
        if !c.joins(p, s[k..][d]) {
          var j :| 0 <= j < d && c.joins(s[k..][j], s[k..][d]);
          assert all[1 + k + j] == s[k..][j];
        }
      }
    }
  }

  /** A sibling taken need not depend on the entry itself, since one taken before may have taken it. */
  lemma TakenBySibling(c: Config, x: nat, y: nat, z: nat)
    requires c.hasSym(x) && c.hasSym(y) && !c.promptless(y)
    requires c.joins(x, y) && c.joins(y, z) && !c.joins(x, z)
    ensures Finalize(c, Cons(x, Nil, Cons(y, Nil, Cons(z, Nil, Nil)))) == Cons(x, Cons(y, Cons(z, Nil, Nil), Nil), Nil)
  {
    var last := Cons(z, Nil, Nil);
    var mid := Cons(y, Nil, last);
    assert Finalize(c, last) == last;
    assert Take(c, y, last) == (last, Nil);
    assert Flatten(c, last) == last;
    assert Finalize(c, mid) == Cons(y, last, Nil);
    assert Take(c, x, mid) == (Cons(y, last, Nil), Nil);
    assert Flatten(c, Cons(y, last, Nil)) == Cons(y, last, Nil);
  }

  // ----- the links -----

  /** The parent link of a node leads to the innermost of its ancestors. */
  predicate ParentLink(h: Links, par: Ptr, p: Place) {
    p.id in h.parent && h.parent[p.id] == if p.above == [] then par else To(p.above[|p.above| - 1])
  }

  lemma {:induction false} SegParents(h: Links, a: Ptr, f: Forest, b: Ptr, par: Ptr, above: seq<nat>, top: Ptr)
    requires Seg(h, a, f, b, par) && par == if above == [] then top else To(above[|above| - 1])
    ensures forall i :: 0 <= i < |Places(f, above)| ==> ParentLink(h, top, Places(f, above)[i])
    decreases f
  {
    if f.Cons? {
      SegParents(h, h.list[f.id], f.kids, Null, To(f.id), above + [f.id], top);
      SegParents(h, h.next[f.id], f.rest, b, par, above, top);
    }
  }

  lemma {:induction false} PlacesLength(f: Forest, above: seq<nat>)
    ensures |Places(f, above)| == |Pre(f)|
  {
    if f.Cons? {
      PlacesLength(f.kids, above + [f.id]);
      PlacesLength(f.rest, above);
    }
  }

  lemma {:induction false} BelongsLength(c: Config, f: Forest, open: seq<nat>, above: seq<nat>)
    ensures |Belongs(c, f, open, above)| == |Pre(f)|
    decreases f
  {
    if f.Cons? {
      var open' := Closing(c, open, f.id);
      BelongsLength(c, f.kids, [], above + open' + [f.id]);
      BelongsLength(c, f.rest, if Opens(c, f) then open' + [f.id] else open', above);
    }
  }

  /** The links after restructuring the first node of f, which took n siblings: the later siblings are
      as they were, and the parent link of every node that was dealt with leads where the node belongs. */
  ghost predicate Took(c: Config, f: Forest, h: Links, par: Ptr, n: nat)
    requires f.Cons?
  {
    && n <= |Siblings(f.rest)| && f.id in h.next
    && var rest := After(f.rest, n);
       && Seg(h, h.next[f.id], rest, Null, par)
       && (if Opens(c, f) then rest.Cons? ==> !c.joins(f.id, rest.id) else n == 0)
       && (forall i :: 0 <= i < n ==> c.joins(f.id, Siblings(f.rest)[i]) || JoinsEarlier(c, Siblings(f.rest), i))
       && PlacedFirst(h, par, Shown(c, 1, Belongs(c, f, [], [])), |Pre(f)| - |Pre(rest)|)
  }

  ghost predicate PlacedFirst(h: Links, par: Ptr, ps: seq<Place>, k: int) {
    0 <= k <= |ps| && forall i :: 0 <= i < k ==> ParentLink(h, par, ps[i])
  }

  ghost predicate Restructured(c: Config, f: Forest, h: Links, par: Ptr)
    requires f.Cons?
  {
    exists n: nat :: Took(c, f, h, par, n)
  }

  /** That is what the links show when they stand for the restructured tree. */
  lemma LinksRestructured(c: Config, f: Forest, h: Links, par: Ptr)
    requires f.Cons? && Seg(h, To(f.id), Finalize(c, f), Null, par)
    ensures Restructured(c, f, h, par)
  {
    var r := Finalize(c, f);
    var n := SubmenuTaken(c, f);
    FirstPlaced(c, f, h, par);
    assert r.rest == After(f.rest, n);
    assert Took(c, f, h, par, n);
  }

  lemma FirstPlaced(c: Config, f: Forest, h: Links, par: Ptr)
    requires f.Cons? && Seg(h, To(f.id), Finalize(c, f), Null, par)
    ensures PlacedFirst(h, par, Shown(c, 1, Belongs(c, f, [], [])), |Pre(f)| - |Pre(Finalize(c, f).rest)|)
  {
    var r := Finalize(c, f);
    FinalizePlaces(c, f);
    BelongsLength(c, f, [], []);
    BelongsLength(c, r.rest, [], []);
    FirstParents(h, r, par);
    SplitPlaced(h, par, First(r, []), Shown(c, 1, Belongs(c, r.rest, [], [])), Shown(c, 1, Belongs(c, f, [], [])));
  }

  lemma FirstParents(h: Links, r: Forest, par: Ptr)
    requires r.Cons? && Seg(h, To(r.id), r, Null, par)
    ensures forall i :: 0 <= i < |First(r, [])| ==> ParentLink(h, par, First(r, [])[i])
  {
    SegParents(h, h.list[r.id], r.kids, Null, To(r.id), [] + [r.id], par);
  }

  lemma SplitPlaced(h: Links, par: Ptr, a: seq<Place>, b: seq<Place>, ps: seq<Place>)
    requires a + b == ps && forall i :: 0 <= i < |a| ==> ParentLink(h, par, a[i])
    ensures PlacedFirst(h, par, ps, |ps| - |b|)
  {
    forall i | 0 <= i < |a|
      ensures ParentLink(h, par, ps[i])
    {
      assert (a + b)[i] == a[i];
    }
  }
}
