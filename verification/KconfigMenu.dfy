/** The menu tree: nodes linked by first-child, next-sibling and parent pointers, its restructuring
    when a configuration has been read, and the walk over it without a stack. */
module KconfigMenu {

  datatype Ptr = Null | To(id: nat)

  /** The three link fields of every menu node. */
  datatype Links = Links(list: map<nat, Ptr>, next: map<nat, Ptr>, parent: map<nat, Ptr>)

  /** What the links stand for: a list of siblings, each with a list of children. */
  datatype Forest = Nil | Cons(id: nat, kids: Forest, rest: Forest)

  /** Depth-first pre-order. */
  function Pre(f: Forest): seq<nat> {
    if f.Nil? then [] else [f.id] + Pre(f.kids) + Pre(f.rest)
  }

  function Append(f: Forest, g: Forest): Forest {
    if f.Nil? then g else Cons(f.id, f.kids, Append(f.rest, g))
  }

  ghost predicate NoDup(s: seq<nat>) {
    forall i, j :: 0 <= i < j < |s| ==> s[i] != s[j]
  }

  predicate HasLinks(h: Links, id: nat) {
    id in h.list && id in h.next && id in h.parent
  }

  /** The siblings from `a` up to (not including) `b` are `f`, with parent links to `par`. */
  ghost predicate Seg(h: Links, a: Ptr, f: Forest, b: Ptr, par: Ptr)
    decreases f
  {
    if f.Nil? then a == b
    else
      && a == To(f.id) && HasLinks(h, f.id) && h.parent[f.id] == par
      && Seg(h, h.list[f.id], f.kids, Null, To(f.id))
      && Seg(h, h.next[f.id], f.rest, b, par)
  }

  ghost predicate SameAt(h: Links, h': Links, id: nat) {
    HasLinks(h, id) ==>
      HasLinks(h', id) && h'.list[id] == h.list[id] && h'.next[id] == h.next[id] && h'.parent[id] == h.parent[id]
  }

  /** Nothing outside `s` changed. */
  ghost predicate Framed(h: Links, h': Links, s: seq<nat>) {
    forall id :: id !in s ==> SameAt(h, h', id)
  }

  // ----- lists -----

  lemma {:induction false} PreAppend(f: Forest, g: Forest)
    ensures Pre(Append(f, g)) == Pre(f) + Pre(g)
  {
    if f.Cons? {
      PreAppend(f.rest, g);
    }
  }

  lemma {:induction false} SegAppend(h: Links, a: Ptr, f: Forest, b: Ptr, g: Forest, c: Ptr, par: Ptr)
    requires Seg(h, a, f, b, par) && Seg(h, b, g, c, par)
    ensures Seg(h, a, Append(f, g), c, par)
    decreases f
  {
    if f.Cons? {
      SegAppend(h, h.next[f.id], f.rest, b, g, c, par);
    }
  }

  lemma {:induction false} SegFrame(h: Links, h': Links, a: Ptr, f: Forest, b: Ptr, par: Ptr)
    requires Seg(h, a, f, b, par)
    requires forall id :: id in Pre(f) ==> SameAt(h, h', id)
    ensures Seg(h', a, f, b, par)
    decreases f
  {
    if f.Cons? {
      assert f.id in Pre(f);
      SegFrame(h, h', h.list[f.id], f.kids, Null, To(f.id));
      SegFrame(h, h', h.next[f.id], f.rest, b, par);
    }
  }

  lemma NoDupParts(a: seq<nat>, b: seq<nat>)
    requires NoDup(a + b)
    ensures NoDup(a) && NoDup(b)
    ensures forall x :: x in a ==> x !in b
  {
    assert forall i :: 0 <= i < |a| ==> (a + b)[i] == a[i];
    assert forall i :: 0 <= i < |b| ==> (a + b)[|a| + i] == b[i];
  }

  /** A node is not among its children or later siblings, and those are apart. */
  lemma ConsParts(f: Forest)
    requires f.Cons? && NoDup(Pre(f))
    ensures f.id !in Pre(f.kids) && f.id !in Pre(f.rest)
    ensures NoDup(Pre(f.kids)) && NoDup(Pre(f.rest))
    ensures forall x :: x in Pre(f.kids) ==> x !in Pre(f.rest)
  {
    assert [f.id] + (Pre(f.kids) + Pre(f.rest)) == Pre(f);
    NoDupParts([f.id], Pre(f.kids) + Pre(f.rest));
    NoDupParts(Pre(f.kids), Pre(f.rest));
    assert f.id in [f.id];
  }

  /** The last sibling of a list. */
  function LastId(f: Forest): nat
    requires f.Cons?
  {
    if f.rest.Nil? then f.id else LastId(f.rest)
  }

  lemma {:induction false} LastIdIn(f: Forest)
    requires f.Cons?
    ensures LastId(f) in Pre(f)
  {
    if f.rest.Cons? {
      LastIdIn(f.rest);
    }
  }

  /** Redirecting the next link of the last sibling redirects the end of the list. */
  lemma {:induction false} Retarget(h: Links, h': Links, a: Ptr, f: Forest, b: Ptr, c: Ptr, par: Ptr)
    requires f.Cons? && Seg(h, a, f, b, par) && NoDup(Pre(f))
    requires HasLinks(h, LastId(f)) && HasLinks(h', LastId(f)) && h'.list[LastId(f)] == h.list[LastId(f)]
    requires h'.parent[LastId(f)] == par && h'.next[LastId(f)] == c
    requires forall id :: id in Pre(f) && id != LastId(f) ==> SameAt(h, h', id)
    ensures Seg(h', a, f, c, par)
    decreases f
  {
    ConsParts(f);
    LastIdIn(f);
    if f.rest.Nil? {
      SegFrame(h, h', h.list[f.id], f.kids, Null, To(f.id));
    } else {
      LastIdIn(f.rest);
      assert SameAt(h, h', f.id);
      SegFrame(h, h', h.list[f.id], f.kids, Null, To(f.id));
      Retarget(h, h', h.next[f.id], f.rest, b, c, par);
    }
  }

  lemma {:induction false} LastNext(h: Links, a: Ptr, f: Forest, b: Ptr, par: Ptr)
    requires f.Cons? && Seg(h, a, f, b, par)
    ensures HasLinks(h, LastId(f)) && h.next[LastId(f)] == b && h.parent[LastId(f)] == par
    decreases f
  {
    if f.rest.Cons? {
      LastNext(h, h.next[f.id], f.rest, b, par);
    }
  }

  lemma {:induction false} LastAppend(f: Forest, g: Forest)
    requires g.Cons?
    ensures Append(f, g).Cons? && LastId(Append(f, g)) == LastId(g)
  {
    if f.Cons? {
      LastAppend(f.rest, g);
    }
  }

  // ----- restructuring as a function -----

  /** What decides the restructuring: which nodes carry a symbol, which have no prompt text, and
      whether entry m depends on the symbol of entry p before it.  Each pair is asked at most once,
      so the answers may be anything. */
  datatype Config = Config(hasSym: nat -> bool, promptless: nat -> bool, joins: (nat, nat) -> bool)

  /** Hoists the children of promptless nodes to the level of the node. */
  function Flatten(c: Config, f: Forest): (r: Forest)
    ensures Pre(r) == Pre(f)
    decreases |Pre(f)|
  {
    if f.Nil? then Nil
    else if f.kids.Cons? && c.promptless(f.id) then
      PreAppend(f.kids, f.rest);
      Cons(f.id, Nil, Flatten(c, Append(f.kids, f.rest)))
    else Cons(f.id, f.kids, Flatten(c, f.rest))
  }

  /** Restructures the first node of f: its children, or the siblings after it that depend on it. */
  function Finalize(c: Config, f: Forest): (r: Forest)
    requires f.Cons?
    ensures r.Cons? && r.id == f.id && Pre(r) == Pre(f)
    decreases |Pre(f)|, 1
  {
    if f.kids.Cons? then
      Cons(f.id, Flatten(c, FinalizeList(c, f.kids)), f.rest)
    else if c.hasSym(f.id) then
      var t := Take(c, f.id, f.rest);
      Cons(f.id, Flatten(c, t.0), t.1)
    else f
  }

  lemma ConsAppend(t: Forest, a: Forest, b: Forest)
    requires t.Cons? && Pre(a) + Pre(b) == Pre(t.rest)
    ensures Pre(Cons(t.id, t.kids, a)) + Pre(b) == Pre(t)
  {
    var x := [t.id] + Pre(t.kids);
    assert x + Pre(a) + Pre(b) == x + (Pre(a) + Pre(b));
  }

  function FinalizeList(c: Config, f: Forest): (r: Forest)
    ensures Pre(r) == Pre(f) && (r.Nil? <==> f.Nil?)
    decreases |Pre(f)|, 2
  {
    if f.Nil? then Nil
    else
      var t := Finalize(c, f);
      Cons(t.id, t.kids, FinalizeList(c, t.rest))
  }

  /** The longest run of siblings that depend on node p, each restructured, and what is left. */
  function Take(c: Config, p: nat, f: Forest): (r: (Forest, Forest))
    ensures Pre(r.0) + Pre(r.1) == Pre(f)
    decreases |Pre(f)|, 2
  {
    if f.Nil? || !c.joins(p, f.id) then (Nil, f)
    else
      var t := Finalize(c, f);
      var u := Take(c, p, t.rest);
      ConsAppend(t, u.0, u.1);
      (Cons(t.id, t.kids, u.0), u.1)
  }

  /** No promptless node has children. */
  predicate Flat(c: Config, f: Forest) {
    f.Cons? ==> (c.promptless(f.id) ==> f.kids.Nil?) && Flat(c, f.kids) && Flat(c, f.rest)
  }

  /** Every node's children are flat; the nodes themselves need not be. */
  predicate FlatBelow(c: Config, f: Forest) {
    f.Cons? ==> Flat(c, f.kids) && FlatBelow(c, f.rest)
  }

  lemma {:induction false} FlatAppend(c: Config, f: Forest, g: Forest)
    requires Flat(c, f) && FlatBelow(c, g)
    ensures FlatBelow(c, Append(f, g))
  {
    if f.Cons? {
      FlatAppend(c, f.rest, g);
    }
  }

  lemma {:induction false} FlattenFlat(c: Config, f: Forest)
    requires FlatBelow(c, f)
    ensures Flat(c, Flatten(c, f))
    decreases |Pre(f)|
  {
    if f.Cons? {
      if f.kids.Cons? && c.promptless(f.id) {
        PreAppend(f.kids, f.rest);
        FlatAppend(c, f.kids, f.rest);
        FlattenFlat(c, Append(f.kids, f.rest));
      } else {
        FlattenFlat(c, f.rest);
      }
    }
  }

  /** After restructuring no promptless node anywhere below has children: `if` blocks are dissolved
      into their surroundings at every level. */
  lemma {:induction false} FinalizeFlat(c: Config, f: Forest)
    requires f.Cons?
    ensures Flat(c, Finalize(c, f).kids)
    decreases |Pre(f)|, 1
  {
    if f.kids.Cons? {
      FinalizeListFlat(c, f.kids);
      FlattenFlat(c, FinalizeList(c, f.kids));
    } else if c.hasSym(f.id) {
      TakeFlat(c, f.id, f.rest);
      FlattenFlat(c, Take(c, f.id, f.rest).0);
    }
  }

  lemma {:induction false} FinalizeListFlat(c: Config, f: Forest)
    ensures FlatBelow(c, FinalizeList(c, f))
    decreases |Pre(f)|, 2
  {
    if f.Cons? {
      FinalizeFlat(c, f);
      FinalizeListFlat(c, Finalize(c, f).rest);
    }
  }

  lemma {:induction false} TakeFlat(c: Config, p: nat, f: Forest)
    ensures FlatBelow(c, Take(c, p, f).0)
    decreases |Pre(f)|, 2
  {
    if f.Cons? && c.joins(p, f.id) {
      FinalizeFlat(c, f);
      TakeFlat(c, p, Finalize(c, f).rest);
    }
  }

  /** The siblings taken are exactly the run that passes the test: all of them pass, and the first
      one left does not. */
  predicate AllJoin(c: Config, p: nat, f: Forest) {
    f.Cons? ==> c.joins(p, f.id) && AllJoin(c, p, f.rest)
  }

  lemma {:induction false} TakeMaximal(c: Config, p: nat, f: Forest)
    ensures var (taken, left) := Take(c, p, f);
            AllJoin(c, p, taken) && (left.Cons? ==> !c.joins(p, left.id))
    decreases |Pre(f)|
  {
    if f.Cons? && c.joins(p, f.id) {
      TakeMaximal(c, p, Finalize(c, f).rest);
    }
  }
}
