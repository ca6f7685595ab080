/** Restructuring and walking the menu tree on the link fields themselves. */
module KconfigMenuLinks {
  import opened KconfigMenu
  import opened KconfigMenuPlaces

  /** Moving the first node of `todo` behind `done`. */
  function Grow(done: Forest, t: Forest): Forest
    requires t.Cons?
  {
    Append(done, Cons(t.id, t.kids, Nil))
  }

  lemma GrowPre(done: Forest, t: Forest)
    requires t.Cons?
    ensures Pre(Grow(done, t)) + Pre(t.rest) == Pre(done) + Pre(t)
    ensures Grow(done, t).Cons? && LastId(Grow(done, t)) == t.id
  {
    PreAppend(done, Cons(t.id, t.kids, Nil));
    LastAppend(done, Cons(t.id, t.kids, Nil));
    assert Pre(done) + ([t.id] + Pre(t.kids) + []) + Pre(t.rest) == Pre(done) + ([t.id] + Pre(t.kids) + Pre(t.rest));
  }

  lemma GrowSeg(h: Links, a: Ptr, done: Forest, t: Forest, par: Ptr)
    requires t.Cons? && HasLinks(h, t.id) && h.parent[t.id] == par
    requires Seg(h, a, done, To(t.id), par)
    requires Seg(h, h.list[t.id], t.kids, Null, To(t.id))
    ensures Seg(h, a, Grow(done, t), h.next[t.id], par)
  {
    assert Seg(h, To(t.id), Cons(t.id, t.kids, Nil), h.next[t.id], par);
    SegAppend(h, a, done, To(t.id), Cons(t.id, t.kids, Nil), h.next[t.id], par);
  }

  /** What was taken so far together with the function on the rest is the function on the whole. */
  lemma {:induction false} ListGrow(c: Config, done: Forest, todo: Forest)
    requires todo.Cons?
    ensures var t := Finalize(c, todo);
            Append(done, FinalizeList(c, todo)) == Append(Grow(done, t), FinalizeList(c, t.rest))
  {
    var t := Finalize(c, todo);
    AppendAssoc(done, Cons(t.id, t.kids, Nil), FinalizeList(c, t.rest));
  }

  lemma {:induction false} AppendAssoc(a: Forest, b: Forest, c: Forest)
    ensures Append(Append(a, b), c) == Append(a, Append(b, c))
  {
    if a.Cons? {
      AppendAssoc(a.rest, b, c);
    }
  }

  lemma {:induction false} AppendNil(a: Forest)
    ensures Append(a, Nil) == a
  {
    if a.Cons? {
      AppendNil(a.rest);
    }
  }

  /** Outside the nodes of a list nothing changed, so another list of other nodes still stands. */
  lemma SegOutside(h: Links, h': Links, s: seq<nat>, a: Ptr, f: Forest, b: Ptr, par: Ptr)
    requires Seg(h, a, f, b, par) && Framed(h, h', s)
    requires forall x :: x in Pre(f) ==> x !in s
    ensures Seg(h', a, f, b, par)
  {
    SegFrame(h, h', a, f, b, par);
  }

  lemma FramedTrans(h: Links, h1: Links, h2: Links, s: seq<nat>, t: seq<nat>)
    requires Framed(h, h1, s) && Framed(h1, h2, t) && forall x :: x in t ==> x in s
    ensures Framed(h, h2, s)
  {
    forall id | id !in s
      ensures SameAt(h, h2, id)
    {
      assert SameAt(h, h1, id) && SameAt(h1, h2, id);
    }
  }

  // ----- places still to visit -----

  /** An ancestor on the way down, and the siblings after it that are still to be visited. */
  datatype Pending = Pending(id: nat, rest: Forest)

  /** The ancestors from the inside out, as the links show them. */
  ghost predicate Context(h: Links, ctx: seq<Pending>, par: Ptr)
    decreases |ctx|
  {
    if ctx == [] then par == Null
    else
      && par == To(ctx[0].id) && HasLinks(h, ctx[0].id)
      && Seg(h, h.next[ctx[0].id], ctx[0].rest, Null, h.parent[ctx[0].id])
      && Context(h, ctx[1..], h.parent[ctx[0].id])
  }

  ghost function Later(ctx: seq<Pending>): seq<nat> {
    if ctx == [] then [] else Pre(ctx[0].rest) + Later(ctx[1..])
  }

  /** The nodes still to be visited, in order. */
  ghost function Remaining(f: Forest, ctx: seq<Pending>): seq<nat> {
    Pre(f) + Later(ctx)
  }

  lemma RemainingDown(f: Forest, ctx: seq<Pending>)
    requires f.Cons?
    ensures [f.id] + Remaining(f.kids, [Pending(f.id, f.rest)] + ctx) == Remaining(f, ctx)
  {
    assert ([Pending(f.id, f.rest)] + ctx)[1..] == ctx;
    assert [f.id] + (Pre(f.kids) + (Pre(f.rest) + Later(ctx))) == [f.id] + Pre(f.kids) + Pre(f.rest) + Later(ctx);
  }

  lemma RemainingNext(f: Forest, ctx: seq<Pending>)
    requires f.Cons? && f.kids.Nil?
    ensures [f.id] + Remaining(f.rest, ctx) == Remaining(f, ctx)
  {
    assert Pre(f) == [f.id] + Pre(f.rest);
    assert [f.id] + (Pre(f.rest) + Later(ctx)) == ([f.id] + Pre(f.rest)) + Later(ctx);
  }

  lemma RemainingUp(ctx: seq<Pending>)
    requires ctx != []
    ensures Remaining(Nil, ctx) == Remaining(ctx[0].rest, ctx[1..])
  {
  }

  class Menus {
    const c: Config
    var h: Links

    constructor (c0: Config, h0: Links)
      ensures c == c0 && h == h0
    {
      c, h := c0, h0;
    }

    method SetNext(id: nat, p: Ptr)
      modifies this`h
      ensures h == old(h).(next := old(h).next[id := p])
    {
      h := h.(next := h.next[id := p]);
    }

    method SetList(id: nat, p: Ptr)
      modifies this`h
      ensures h == old(h).(list := old(h).list[id := p])
    {
      h := h.(list := h.list[id := p]);
    }

    method SetParent(id: nat, p: Ptr)
      modifies this`h
      ensures h == old(h).(parent := old(h).parent[id := p])
    {
      h := h.(parent := h.parent[id := p]);
    }

    /** Restructures the node p, which heads the sibling list f. */
    method MenuFinalize(p: nat, ghost f: Forest, ghost par: Ptr)
      requires f.Cons? && f.id == p && Seg(h, To(p), f, Null, par) && NoDup(Pre(f))
      modifies this
      ensures Seg(h, To(p), Finalize(c, f), Null, par) && Restructured(c, f, h, par)
      ensures Framed(old(h), h, Pre(f))
      decreases |Pre(f)|, 1
    {
      ConsParts(f);
      ghost var g := f;
      if h.list[p] != Null {
        FinalizeChildren(p, f, par);
        g := Cons(p, FinalizeList(c, f.kids), f.rest);
      } else if c.hasSym(p) {
        TakeSubmenu(p, f, par);
        g := Cons(p, Take(c, p, f.rest).0, Take(c, p, f.rest).1);
      }
      ghost var h1 := h;
      assert Pre(g) == Pre(f) by { ShapePre(c, f); }
      FlattenChildren(p, g, par);
      FramedTrans(old(h), h1, h, Pre(f), Pre(g));
      LinksRestructured(c, f, h, par);
    }

    static lemma ShapePre(c: Config, f: Forest)
      requires f.Cons?
      ensures Pre(Cons(f.id, FinalizeList(c, f.kids), f.rest)) == Pre(f)
      ensures var t := Take(c, f.id, f.rest); f.kids.Nil? ==> Pre(Cons(f.id, t.0, t.1)) == Pre(f)
    {
      var t := Take(c, f.id, f.rest);
      assert [f.id] + Pre(t.0) + Pre(t.1) == [f.id] + (Pre(t.0) + Pre(t.1));
      assert [f.id] + [] + Pre(f.rest) == [f.id] + Pre(f.rest);
    }

    /** Restructures the children of p one after the other; each may take the ones after it. */
    method FinalizeChildren(p: nat, ghost f: Forest, ghost par: Ptr)
      requires f.Cons? && f.id == p && Seg(h, To(p), f, Null, par) && NoDup(Pre(f))
      modifies this
      ensures Seg(h, To(p), Cons(p, FinalizeList(c, f.kids), f.rest), Null, par)
      ensures Framed(old(h), h, Pre(f))
      decreases |Pre(f)|, 0
    {
      ConsParts(f);
      var menu := h.list[p];
      ghost var done, todo := Nil, f.kids;
      while menu != Null
        invariant HasLinks(h, p) && h.list[p] == old(h).list[p]
        invariant Seg(h, h.list[p], done, menu, To(p)) && Seg(h, menu, todo, Null, To(p))
        invariant Pre(done) + Pre(todo) == Pre(f.kids)
        invariant Append(done, FinalizeList(c, todo)) == FinalizeList(c, f.kids)
        invariant Framed(old(h), h, Pre(f.kids))
        decreases |Pre(todo)|
      {
        ghost var h1 := h;
        NoDupParts(Pre(done), Pre(todo));
        MenuFinalize(menu.id, todo, To(p));
        ghost var t := Finalize(c, todo);
        SegOutside(h1, h, Pre(todo), h1.list[p], done, menu, To(p));
        FramedTrans(old(h), h1, h, Pre(f.kids), Pre(todo));
        assert SameAt(old(h), h, p);
        ListGrow(c, done, todo);
        GrowPre(done, t);
        GrowSeg(h, h.list[p], done, t, To(p));
        done, todo := Grow(done, t), t.rest;
        menu := h.next[menu.id];
      }
      AppendNil(done);
      assert SameAt(old(h), h, p);
      SegOutside(old(h), h, Pre(f.kids), old(h).next[p], f.rest, Null, par);
      FramedTrans(old(h), old(h), h, Pre(f), Pre(f.kids));
    }

    /** Takes the siblings after p that depend on it as children of p. */
    method TakeSubmenu(p: nat, ghost f: Forest, ghost par: Ptr)
      requires f.Cons? && f.id == p && f.kids.Nil? && Seg(h, To(p), f, Null, par) && NoDup(Pre(f))
      modifies this
      ensures var t := Take(c, p, f.rest); Seg(h, To(p), Cons(p, t.0, t.1), Null, par)
      ensures Framed(old(h), h, Pre(f))
      decreases |Pre(f)|, 0
    {
      ConsParts(f);
      var last := Null;
      var menu := h.next[p];
      ghost var taken, todo := Nil, f.rest;
      while menu != Null
        invariant HasLinks(h, p) && h.list[p] == Null && h.next[p] == old(h).next[p] && h.parent[p] == par
        invariant Seg(h, h.next[p], taken, menu, To(p)) && Seg(h, menu, todo, Null, par)
        invariant Pre(taken) + Pre(todo) == Pre(f.rest)
        invariant Append(taken, Take(c, p, todo).0) == Take(c, p, f.rest).0
        invariant Take(c, p, todo).1 == Take(c, p, f.rest).1
        invariant Framed(old(h), h, Pre(f.rest))
        invariant last == if taken.Nil? then Null else To(LastId(taken))
        decreases |Pre(todo)|
      {
        if !c.joins(p, menu.id) {
          break;
        }
        ghost var h1 := h;
        NoDupParts(Pre(taken), Pre(todo));
        MenuFinalize(menu.id, todo, par);
        ghost var t, h2 := Finalize(c, todo), h;
        SegOutside(h1, h, Pre(todo), h1.next[p], taken, menu, To(p));
        SetParent(menu.id, To(p));
        Reparented(h2, h, menu.id, t, par, To(p));
        SegFrame(h2, h, h1.next[p], taken, menu, To(p));
        FramedTrans(old(h), h1, h2, Pre(f.rest), Pre(todo));
        FramedTrans(old(h), h2, h, Pre(f.rest), [menu.id]);
        assert SameAt(old(h), h, p);
        TakeGrow(c, p, taken, todo);
        GrowPre(taken, t);
        GrowSeg(h, h.next[p], taken, t, To(p));
        last := menu;
        taken, todo := Grow(taken, t), t.rest;
        menu := h.next[menu.id];
      }
      assert Take(c, p, todo) == (Nil, todo);
      AppendNil(taken);
      ghost var h1 := h;
      FramedTrans(old(h), old(h), h1, Pre(f), Pre(f.rest));
      if last != Null {
        NoDupParts(Pre(taken), Pre(todo));
        CloseSubmenu(p, last.id, menu, taken, todo, par);
        FramedTrans(old(h), h1, h, Pre(f), [p, last.id]);
      }
    }

    /** Turns the run of siblings from p's next up to `last` into the children of p. */
    method CloseSubmenu(p: nat, last: nat, ghost menu: Ptr, ghost taken: Forest, ghost todo: Forest, ghost par: Ptr)
      requires HasLinks(h, p) && h.list[p] == Null && h.parent[p] == par
      requires taken.Cons? && last == LastId(taken) && NoDup(Pre(taken))
      requires Seg(h, h.next[p], taken, menu, To(p)) && Seg(h, menu, todo, Null, par)
      requires p !in Pre(taken) && p !in Pre(todo) && forall x :: x in Pre(taken) ==> x !in Pre(todo)
      modifies this
      ensures Seg(h, To(p), Cons(p, taken, todo), Null, par)
      ensures Framed(old(h), h, [p, last]) && last in Pre(taken)
    {
      LastNext(h, h.next[p], taken, menu, To(p));
      LastIdIn(taken);
      SetList(p, h.next[p]);
      SetNext(p, h.next[last]);
      SetNext(last, Null);
      Retarget(old(h), h, old(h).next[p], taken, menu, Null, To(p));
      SegFrame(old(h), h, menu, todo, Null, par);
    }

    /** Giving the first node of a list another parent leaves its children and the rest alone. */
    static lemma Reparented(h: Links, h': Links, id: nat, t: Forest, par: Ptr, par': Ptr)
      requires t.Cons? && t.id == id && NoDup(Pre(t)) && Seg(h, To(id), t, Null, par)
      requires h' == h.(parent := h.parent[id := par'])
      ensures HasLinks(h', id) && h'.parent[id] == par'
      ensures Seg(h', h'.list[id], t.kids, Null, To(id)) && Seg(h', h'.next[id], t.rest, Null, par)
      ensures Framed(h, h', [id])
    {
      ConsParts(t);
      SegFrame(h, h', h.list[id], t.kids, Null, To(id));
      SegFrame(h, h', h.next[id], t.rest, Null, par);
    }

    static lemma TakeGrow(c: Config, p: nat, taken: Forest, todo: Forest)
      requires todo.Cons? && c.joins(p, todo.id)
      ensures var t := Finalize(c, todo);
              && Append(taken, Take(c, p, todo).0) == Append(Grow(taken, t), Take(c, p, t.rest).0)
              && Take(c, p, todo).1 == Take(c, p, t.rest).1
    {
      var t := Finalize(c, todo);
      AppendAssoc(taken, Cons(t.id, t.kids, Nil), Take(c, p, t.rest).0);
    }

    /** Hoists the children of promptless children of p. */
    method FlattenChildren(p: nat, ghost f: Forest, ghost par: Ptr)
      requires f.Cons? && f.id == p && Seg(h, To(p), f, Null, par) && NoDup(Pre(f))
      modifies this
      ensures Seg(h, To(p), Cons(p, Flatten(c, f.kids), f.rest), Null, par)
      ensures Framed(old(h), h, Pre(f))
    {
      ConsParts(f);
      var menu := h.list[p];
      ghost var done, todo := Nil, f.kids;
      while menu != Null
        invariant HasLinks(h, p) && h.list[p] == old(h).list[p]
        invariant Seg(h, h.list[p], done, menu, To(p)) && Seg(h, menu, todo, Null, To(p))
        invariant Pre(done) + Pre(todo) == Pre(f.kids)
        invariant Append(done, Flatten(c, todo)) == Flatten(c, f.kids)
        invariant Framed(old(h), h, Pre(f.kids))
        decreases |Pre(todo)|
      {
        ghost var h1 := h;
        NoDupParts(Pre(done), Pre(todo));
        if h.list[menu.id] != Null && c.promptless(menu.id) {
          Hoist(menu.id, p, todo);
          SegOutside(h1, h, Pre(todo), h1.list[p], done, menu, To(p));
          FramedTrans(old(h), h1, h, Pre(f.kids), Pre(todo));
          assert SameAt(old(h), h, p);
          PreAppend(todo.kids, todo.rest);
          todo := Cons(todo.id, Nil, Append(todo.kids, todo.rest));
        }
        FlattenGrow(c, done, todo);
        GrowPre(done, todo);
        GrowSeg(h, h.list[p], done, todo, To(p));
        done, todo := Grow(done, todo), todo.rest;
        menu := h.next[menu.id];
      }
      AppendNil(done);
      assert SameAt(old(h), h, p);
      SegOutside(old(h), h, Pre(f.kids), old(h).next[p], f.rest, Null, par);
      FramedTrans(old(h), old(h), h, Pre(f), Pre(f.kids));
    }

    static lemma FlattenGrow(c: Config, done: Forest, todo: Forest)
      requires todo.Cons? && (todo.kids.Nil? || !c.promptless(todo.id))
      ensures Append(done, Flatten(c, todo)) == Append(Grow(done, todo), Flatten(c, todo.rest))
    {
      AppendAssoc(done, Cons(todo.id, todo.kids, Nil), Flatten(c, todo.rest));
    }

    /** Moves the children of node m to the places right after m. */
    method Hoist(m: nat, p: nat, ghost todo: Forest)
      requires todo.Cons? && todo.id == m && todo.kids.Cons? && NoDup(Pre(todo))
      requires Seg(h, To(m), todo, Null, To(p))
      modifies this
      ensures Seg(h, To(m), Cons(m, Nil, Append(todo.kids, todo.rest)), Null, To(p))
      ensures Framed(old(h), h, Pre(todo))
    {
      ConsParts(todo);
      ghost var k := todo.kids;
      var last := ReparentAll(h.list[m], p, m, k);
      ghost var h1 := h;
      assert SameAt(old(h), h, m);
      SegOutside(old(h), h, Pre(k), old(h).next[m], todo.rest, Null, To(p));
      LastIdIn(k);
      LastNext(h, h.list[m], k, Null, To(p));
      SetNext(last, h.next[m]);
      SetNext(m, h.list[m]);
      SetList(m, Null);
      Retarget(h1, h, h1.list[m], k, Null, h1.next[m], To(p));
      SegFrame(h1, h, h1.next[m], todo.rest, Null, To(p));
      SegAppend(h, h.next[m], k, h1.next[m], todo.rest, Null, To(p));
      FramedTrans(old(h), old(h), h1, Pre(todo), Pre(k));
      FramedTrans(old(h), h1, h, Pre(todo), Pre(todo));
    }

    /** Gives every node of a non-empty sibling list the parent p; returns the last one. */
    method ReparentAll(first: Ptr, p: nat, ghost m: nat, ghost k: Forest) returns (last: nat)
      requires k.Cons? && NoDup(Pre(k)) && Seg(h, first, k, Null, To(m))
      modifies this
      ensures Seg(h, first, k, Null, To(p)) && last == LastId(k)
      ensures Framed(old(h), h, Pre(k))
    {
      var cur := first;
      ghost var done, left := Nil, k;
      while true
        invariant left.Cons? && cur == To(left.id)
        invariant Seg(h, first, done, cur, To(p)) && Seg(h, cur, left, Null, To(m))
        invariant Append(done, left) == k && Pre(done) + Pre(left) == Pre(k)
        invariant Framed(old(h), h, Pre(k))
        decreases |Pre(left)|
      {
        ghost var h1 := h;
        NoDupParts(Pre(done), Pre(left));
        SetParent(cur.id, To(p));
        Reparented(h1, h, cur.id, left, To(m), To(p));
        SegFrame(h1, h, first, done, cur, To(p));
        FramedTrans(old(h), h1, h, Pre(k), [cur.id]);
        GrowPre(done, left);
        GrowSeg(h, first, done, left, To(p));
        AppendAssoc(done, Cons(left.id, left.kids, Nil), left.rest);
        done := Grow(done, left);
        last := cur.id;
        left := left.rest;
        if h.next[cur.id] == Null {
          AppendNil(done);
          return;
        }
        cur := h.next[cur.id];
      }
    }

    // ----- the walk without a stack -----

    /** The next node of the walk: first child, else next sibling, else the next sibling of the
        nearest ancestor that has one. */
    method Advance(m: nat, ghost f: Forest, ghost ctx: seq<Pending>, ghost par: Ptr)
      returns (menu: Ptr, ghost f': Forest, ghost ctx': seq<Pending>, ghost par': Ptr)
      requires f.Cons? && f.id == m && Seg(h, To(m), f, Null, par) && Context(h, ctx, par)
      ensures Seg(h, menu, f', Null, par') && Context(h, ctx', par')
      ensures menu == Null ==> f'.Nil? && ctx' == []
      ensures [m] + Remaining(f', ctx') == Remaining(f, ctx)
    {
      if h.list[m] != Null {
        menu := h.list[m];
        f', ctx', par' := f.kids, [Pending(m, f.rest)] + ctx, To(m);
        assert ctx'[1..] == ctx;
        RemainingDown(f, ctx);
        return;
      }
      RemainingNext(f, ctx);
      if h.next[m] != Null {
        return h.next[m], f.rest, ctx, par;
      }
      menu, f', ctx', par' := Climb(h.parent[m], ctx, par);
    }

    /** Up to the nearest ancestor with a next sibling. */
    method Climb(start: Ptr, ghost ctx: seq<Pending>, ghost par: Ptr)
      returns (menu: Ptr, ghost f': Forest, ghost ctx': seq<Pending>, ghost par': Ptr)
      requires start == par && Context(h, ctx, par)
      ensures Seg(h, menu, f', Null, par') && Context(h, ctx', par')
      ensures menu == Null ==> f'.Nil? && ctx' == []
      ensures Remaining(f', ctx') == Remaining(Nil, ctx)
    {
      menu := start;
      f', ctx', par' := Nil, ctx, par;
      while menu != Null
        invariant menu == par' && f'.Nil? && Context(h, ctx', par')
        invariant Remaining(Nil, ctx') == Remaining(Nil, ctx)
        decreases |ctx'|
      {
        RemainingUp(ctx');
        if h.next[menu.id] != Null {
          f', ctx', par' := ctx'[0].rest, ctx'[1..], h.parent[menu.id];
          menu := h.next[menu.id];
          return;
        }
        assert ctx'[0].rest.Nil?;
        ctx', par' := ctx'[1..], h.parent[menu.id];
        menu := h.parent[menu.id];
      }
    }

    /** The walk of the configuration writers: visits every node below the root exactly once, in
        depth-first order, and stops. */
    method Walk(root: nat, ghost f: Forest) returns (visited: seq<nat>)
      requires f.Cons? && f.id == root && f.rest.Nil? && Seg(h, To(root), f, Null, Null)
      ensures visited == Pre(f.kids)
    {
      visited := [];
      var menu := h.list[root];
      ghost var cur, ctx, par := f.kids, [Pending(root, Nil)], To(root);
      assert ctx[1..] == [];
      assert Later(ctx) == Pre(Nil) + Later([]);
      assert Remaining(cur, ctx) == Pre(f.kids);
      while menu != Null
        invariant Seg(h, menu, cur, Null, par) && Context(h, ctx, par)
        invariant menu == Null ==> Remaining(cur, ctx) == []
        invariant visited + Remaining(cur, ctx) == Pre(f.kids)
        decreases |Remaining(cur, ctx)|
      {
        visited := visited + [menu.id];
        menu, cur, ctx, par := Advance(menu.id, cur, ctx, par);
      }
    }

    /** Restructuring a whole menu tree and then walking it visits the original nodes in their
        original order, whatever the dependency tests answered. */
    method FinalizeAndWalk(root: nat, ghost f: Forest) returns (visited: seq<nat>)
      requires f.Cons? && f.id == root && f.rest.Nil? && Seg(h, To(root), f, Null, Null) && NoDup(Pre(f))
      modifies this
      ensures visited == Pre(f.kids) && |Belongs(c, f, [], [])| == |Pre(f)|
      ensures Seg(h, To(root), Finalize(c, f), Null, Null) && Flat(c, Finalize(c, f).kids)
      ensures forall i :: 0 <= i < |Pre(f)| ==> ParentLink(h, Null, Shown(c, 1, Belongs(c, f, [], []))[i])
    {
      MenuFinalize(root, f, Null);
      ghost var g := Finalize(c, f);
      FinalizeFlat(c, f);
      assert g.rest.Nil?;
      assert [root] + Pre(g.kids) + [] == [root] + Pre(f.kids) + [];
      assert Pre(g.kids) == Pre(g)[1..] && Pre(f.kids) == Pre(f)[1..];
      TreePlaces(c, f);
      PlacesLength(g, []);
      SegParents(h, To(root), g, Null, Null, [], Null);
      visited := Walk(root, g);
    }
  }
}
