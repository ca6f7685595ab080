/** What mapping and unmapping a page does to address translation. */
module VmeMap {
  import opened Options
  import opened VmeModel
  import opened VmeInvariant

  /** A present directory entry leads to a table owned by the kernel or by this address space. */
  lemma TableOwner(m: Machine, own: Owners, i: nat, k: nat)
    requires Inv(m, own) && i in m.spaces && k < ENTRIES
    ensures DirOf(m, i) in m.mem && own[DirOf(m, i)] == Dir(i)
    ensures var e := m.mem[DirOf(m, i)][k];
            P(e) ==> PageOf(e) in m.mem && (own[PageOf(e)] == KernelTable(k) || own[PageOf(e)] == UserTable(i, k))
  {
    assert SpaceOk(m, own, i);
    assert DirEntryOk(m, own, i, k);
    assert KernelEntryOk(m, own, k);
  }

  /** Tables in one state that another state keeps translate the same. */
  lemma SameTables(m: Machine, m': Machine, ptr: Word, n: nat)
    requires n < PAGES && PageOf(ptr) in m.mem && PageOf(ptr) in m'.mem
    requires m'.mem[PageOf(ptr)][n / ENTRIES] == m.mem[PageOf(ptr)][n / ENTRIES]
    requires var e := m.mem[PageOf(ptr)][n / ENTRIES];
             P(e) ==> PageOf(e) in m.mem && PageOf(e) in m'.mem
                      && m'.mem[PageOf(e)][n % ENTRIES] == m.mem[PageOf(e)][n % ENTRIES]
    ensures Translate(m', ptr, n) == Translate(m, ptr, n)
  {
  }

  /** An empty table translates nothing, so adding one is invisible. */
  lemma AddTableTranslate(m: Machine, own: Owners, id: nat, k: nat, i: nat, n: nat)
    requires CanAdd(m, own, id, k) && i in m.spaces && n < PAGES
    ensures Translate(AddTable(m, id, k), m.spaces[i], n) == Translate(m, m.spaces[i], n)
  {
    var z, m' := m.pool[0], AddTable(m, id, k);
    TableOwner(m, own, i, n / ENTRIES);
    TableOwner(m, own, id, k);
    EntryParts(z, 7);
    if i == id && n / ENTRIES == k {
      assert m'.mem[DirOf(m, id)][k] == Entry(z, 7) && m'.mem[z] == ZeroTable();
    } else {
      SameTables(m, m', m.spaces[i], n);
    }
  }

  /** Writing entry j of the user table for block k changes the translation of one page of one
      address space. */
  lemma SetLeafTranslate(m: Machine, own: Owners, id: nat, k: nat, p: nat, j: nat, w: Word, i: nat, n: nat)
    requires Inv(m, own) && p in own && own[p] == UserTable(id, k) && j < ENTRIES
    requires i in m.spaces && n < PAGES
    ensures var t := Translate(SetEntry(m, p, j, w), m.spaces[i], n);
            if i == id && n == k * ENTRIES + j
            then t == (if P(w) then Some(Mapping(PageOf(w), Writable(w), User(w))) else None)
            else t == Translate(m, m.spaces[i], n)
  {
    var m' := SetEntry(m, p, j, w);
    TableOwner(m, own, i, n / ENTRIES);
    assert Rooted(m, own, p);
    if i == id && n == k * ENTRIES + j {
      assert SpaceOk(m, own, id);
      assert DirEntryOk(m, own, id, k);
      var e := m.mem[DirOf(m, id)][k];
      assert e % 8 == 7;
      SevenBits(e);
      assert m'.mem[DirOf(m, id)] == m.mem[DirOf(m, id)];
      assert n / ENTRIES == k && n % ENTRIES == j;
    } else {
      SameTables(m, m', m.spaces[i], n);
    }
  }

  lemma SevenBits(e: Word)
    requires e % 8 == 7
    ensures P(e) && Writable(e) && User(e)
  {
    LowBits(e);
  }

  // ----- mapping and unmapping -----

  predicate Mapped(m: Machine, id: nat, n: nat)
    requires id in m.spaces && n < PAGES
  {
    Translate(m, m.spaces[id], n).Some?
  }

  /** When the kernel panics: bad address, no page left for a missing table, unmapping what is not
      mapped, or mapping what is. */
  predicate MapPanics(m: Machine, id: nat, va: Word, pa: Word, prot: nat)
    requires Reachable(m, id)
  {
    || !(USER_START <= va < USER_END)
    || va % PGSIZE != 0 || pa % PGSIZE != 0
    || (!P(m.mem[DirOf(m, id)][DirIndex(va)]) && m.pool == [])
    || (prot == 0) != Mapped(m, id, PageOf(va))
  }

  lemma UserBlock(va: Word)
    requires USER_START <= va < USER_END
    ensures UserIndex(DirIndex(va)) && UserVpn(PageOf(va))
    ensures PageOf(va) == DirIndex(va) * ENTRIES + TabIndex(va)
    ensures PageOf(va) / ENTRIES == DirIndex(va) && PageOf(va) % ENTRIES == TabIndex(va)
  {
  }

  /** The entry a walk returns decides whether the page is mapped. */
  lemma WalkedEntry(m: Machine, own: Owners, id: nat, n: nat, p: nat)
    requires Inv(m, own) && id in m.spaces && n < PAGES && p in own && own[p] == UserTable(id, n / ENTRIES)
    ensures p in m.mem && (P(m.mem[p][n % ENTRIES]) <==> Mapped(m, id, n))
  {
    assert Rooted(m, own, p);
  }

  /** The two states translate everything the same. */
  ghost predicate SameTranslation(m: Machine, m': Machine) {
    && m'.spaces == m.spaces
    && (forall i, n :: i in m.spaces && 0 <= n < PAGES ==>
          Translate(m', m.spaces[i], n) == Translate(m, m.spaces[i], n))
  }

  /** The two states translate everything the same, except that page n of space id becomes t. */
  ghost predicate OneChange(m: Machine, m': Machine, id: nat, n: nat, t: Option<Mapping>)
    requires id in m.spaces && n < PAGES
  {
    && m'.spaces == m.spaces
    && Translate(m', m.spaces[id], n) == t
    && (forall i, x :: i in m.spaces && 0 <= x < PAGES && (i != id || x != n) ==>
          Translate(m', m.spaces[i], x) == Translate(m, m.spaces[i], x))
  }

  function NewMapping(pa: Word, prot: nat): Option<Mapping> {
    if prot == 0 then None else Some(Mapping(PageOf(pa), prot / 2 % 2 == 1, true))
  }

  lemma NewEntryMeaning(pa: Word, prot: nat)
    ensures var e := NewEntry(pa, prot);
            NewMapping(pa, prot) == if P(e) then Some(Mapping(PageOf(e), Writable(e), User(e))) else None
  {
    EntryParts(PageOf(pa), 5);
    EntryParts(PageOf(pa), 7);
  }

  lemma LeafOneChange(m: Machine, m1: Machine, own: Owners, id: nat, k: nat, p: nat, j: nat, e: Word)
    requires Inv(m1, own) && p in own && own[p] == UserTable(id, k) && j < ENTRIES && k < ENTRIES
    requires id in m.spaces && SameTranslation(m, m1)
    ensures OneChange(m, SetEntry(m1, p, j, e), id, k * ENTRIES + j,
                      if P(e) then Some(Mapping(PageOf(e), Writable(e), User(e))) else None)
  {
    var m' := SetEntry(m1, p, j, e);
    var t := if P(e) then Some(Mapping(PageOf(e), Writable(e), User(e))) else None;
    SetLeafTranslate(m1, own, id, k, p, j, e, id, k * ENTRIES + j);
    forall i, n | i in m.spaces && 0 <= n < PAGES && (i != id || n != k * ENTRIES + j)
      ensures Translate(m', m.spaces[i], n) == Translate(m, m.spaces[i], n)
    {
      SetLeafTranslate(m1, own, id, k, p, j, e, i, n);
    }
  }

  /** What a map call has when the walk is done. */
  ghost predicate WalkDone(m: Machine, w: Walked, own: Owners, id: nat, va: Word) {
    && Inv(w.m, own) && id in m.spaces && SameTranslation(m, w.m) && AllPages(w.m) == AllPages(m)
    && USER_START <= va < USER_END
    && w.page in own && own[w.page] == UserTable(id, DirIndex(va)) && w.index == TabIndex(va)
    && DirOf(m, id) in w.m.mem && P(w.m.mem[DirOf(m, id)][DirIndex(va)])
    && w.page == PageOf(w.m.mem[DirOf(m, id)][DirIndex(va)])
  }

  lemma WriteDecision(m: Machine, w: Walked, own: Owners, id: nat, va: Word, pa: Word, prot: nat)
    requires WalkDone(m, w, own, id, va)
    ensures w.page in w.m.mem
    ensures WriteEntry(w, pa, prot).None? <==> (prot == 0) != Mapped(m, id, PageOf(va))
    ensures WriteEntry(w, pa, prot).Some? ==>
              WriteEntry(w, pa, prot).value == SetEntry(w.m, w.page, w.index, NewEntry(pa, prot))
  {
    UserBlock(va);
    WalkedEntry(w.m, own, id, PageOf(va), w.page);
  }

  /** The second half of a map call, from the walked state on: the invariant. */
  lemma WrittenInv(m: Machine, w: Walked, own: Owners, id: nat, va: Word, e: Word)
    requires WalkDone(m, w, own, id, va) && w.page in w.m.mem
    ensures var m' := SetEntry(w.m, w.page, w.index, e);
      Inv(m', own) && m'.kpt == w.m.kpt && m'.spaces == m.spaces && AllPages(m') == AllPages(m)
  {
    SetLeafInv(w.m, own, w.page, w.index, e);
  }

  /** The second half of a map call: translation. */
  lemma WrittenView(m: Machine, w: Walked, own: Owners, id: nat, va: Word, pa: Word, prot: nat)
    requires WalkDone(m, w, own, id, va) && w.page in w.m.mem
    ensures OneChange(m, SetEntry(w.m, w.page, w.index, NewEntry(pa, prot)), id, PageOf(va), NewMapping(pa, prot))
  {
    UserBlock(va);
    NewEntryMeaning(pa, prot);
    LeafOneChange(m, w.m, own, id, DirIndex(va), w.page, w.index, NewEntry(pa, prot));
  }

  /** The walk that ends every map call finds the tables in place. */
  lemma SecondWalk(m: Machine, own: Owners, id: nat, va: Word, p: nat, j: nat, e: Word)
    requires Inv(m, own) && id in m.spaces && p in own && own[p] == UserTable(id, DirIndex(va)) && j < ENTRIES
    requires DirOf(m, id) in m.mem && P(m.mem[DirOf(m, id)][DirIndex(va)])
    requires p == PageOf(m.mem[DirOf(m, id)][DirIndex(va)])
    ensures var m' := SetEntry(m, p, j, e);
            && P(m'.spaces[id]) && PageOf(m'.spaces[id]) in m'.mem
            && PtWalk(m', m.spaces[id], va, 6) == Some(Walked(m', m.spaces[id], p, TabIndex(va)))
  {
    var m' := SetEntry(m, p, j, e);
    TableOwner(m, own, id, DirIndex(va));
    SetLeafInv(m, own, p, j, e);
    assert SpaceOk(m', own, id);
    InvReachable(m', own, id);
    WalkAgain(m', own, id, va, p);
  }

  /** What one call of map does: it succeeds exactly when it does not panic, and then exactly one
      page of one address space changes its translation, the ownership invariant holds, and no
      page is lost. */
  lemma MapPageCorrect(m: Machine, own: Owners, id: nat, va: Word, pa: Word, prot: nat) returns (own': Owners)
    requires Inv(m, own) && Reachable(m, id)
    ensures MapPage(m, id, va, pa, prot).None? <==> MapPanics(m, id, va, pa, prot)
    ensures MapPage(m, id, va, pa, prot).Some? ==>
      var m' := MapPage(m, id, va, pa, prot).value;
      && Inv(m', own') && m'.kpt == m.kpt && AllPages(m') == AllPages(m)
      && OneChange(m, m', id, PageOf(va), NewMapping(pa, prot))
    ensures LostPages(own') == LostPages(own)
  {
    own' := own;
    if !(USER_START <= va < USER_END) || va % PGSIZE != 0 || pa % PGSIZE != 0 {
      return;
    }
    UserBlock(va);
    var k, ptr := DirIndex(va), m.spaces[id];
    var w := PtWalk(m, ptr, va, 6);
    assert w.None? <==> !P(m.mem[DirOf(m, id)][k]) && m.pool == [];
    if w.None? {
      return;
    }
    own' := WalkUser(m, own, id, va);
    forall i, n | i in m.spaces && 0 <= n < PAGES
      ensures Translate(w.value.m, m.spaces[i], n) == Translate(m, m.spaces[i], n)
    {
      if w.value.m != m {
        AddTableTranslate(m, own, id, k, i, n);
      }
    }
    WriteDecision(m, w.value, own', id, va, pa, prot);
    WrittenInv(m, w.value, own', id, va, NewEntry(pa, prot));
    WrittenView(m, w.value, own', id, va, pa, prot);
    SecondWalk(w.value.m, own', id, va, w.value.page, w.value.index, NewEntry(pa, prot));
  }
}
