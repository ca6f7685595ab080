/** Creating and destroying address spaces. */
module VmeSpace {
  import opened Options
  import opened VmeModel
  import opened VmeInvariant
  import opened VmeMap

  // ----- the kernel's pages -----

  /** In every address space the kernel area is mapped to itself, writable, not for users. */
  lemma KernelIdentity(m: Machine, own: Owners, i: nat, n: nat)
    requires Inv(m, own) && i in m.spaces && n < PAGES && KernelIndex(n / ENTRIES)
    ensures Translate(m, m.spaces[i], n) == Some(Mapping(n, true, false))
  {
    assert SpaceOk(m, own, i);
    var k, j := n / ENTRIES, n % ENTRIES;
    assert DirEntryOk(m, own, i, k);
    assert KernelEntryOk(m, own, k);
    ThreeBits(m.mem[m.kpt][k]);
    EntryParts(n, 3);
    assert m.mem[PageOf(m.mem[m.kpt][k])][j] == Entry(n, 3);
  }

  lemma ThreeBits(e: Word)
    requires e % 8 == 3
    ensures P(e) && Writable(e) && !User(e)
  {
    LowBits(e);
  }

  // ----- creation -----

  /** Who owns what after space id gets the new directory d: whatever it had before is lost. */
  ghost function NewOwners(own: Owners, id: nat, d: nat): Owners {
    map p | p in own.Keys + {d} :: if p == d then Dir(id) else if p in Owned(own, id) then Lost else own[p]
  }

  lemma NewOwnersLost(own: Owners, id: nat, d: nat)
    requires d !in own
    ensures LostPages(NewOwners(own, id, d)) == LostPages(own) + Owned(own, id)
  {
  }

  /** A space that does not exist owns nothing. */
  lemma NothingOwned(m: Machine, own: Owners, id: nat)
    requires Inv(m, own) && id !in m.spaces
    ensures Owned(own, id) == {}
  {
    forall p | p in own
      ensures p !in Owned(own, id)
    {
      assert Rooted(m, own, p);
    }
  }

  /** m' is m with the fresh directory d for space id. */
  ghost predicate Created(m: Machine, own: Owners, m': Machine, own': Owners, id: nat, d: nat) {
    && own.Keys == m.mem.Keys && d !in own && 0 < d < PAGES && own' == NewOwners(own, id, d)
    && m.kpt in m.mem && m'.kpt == m.kpt && m'.mem == m.mem[d := SharedDir(m.mem[m.kpt])]
    && m'.spaces == m.spaces[id := Entry(d, 5)]
  }

  lemma CreatedSpace(m: Machine, own: Owners, m': Machine, own': Owners, id: nat, d: nat, i: nat)
    requires Created(m, own, m', own', id, d) && i in m'.spaces
    requires i != id ==> SpaceOk(m, own, i)
    ensures SpaceOk(m', own', i)
  {
    if i == id {
      EntryParts(d, 5);
      forall k | 0 <= k < ENTRIES
        ensures DirEntryOk(m', own', i, k)
      {
      }
    } else {
      SpaceKept(m, own, m', own', i);
    }
  }

  lemma CreatedRooted(m: Machine, own: Owners, m': Machine, own': Owners, id: nat, d: nat, p: nat)
    requires Created(m, own, m', own', id, d) && p in own'
    requires p in own ==> Rooted(m, own, p)
    ensures Rooted(m', own', p)
  {
    EntryParts(d, 5);
  }

  lemma ProtectInv(m: Machine, own: Owners, id: nat)
    requires Inv(m, own) && m.pool != []
    ensures Inv(Protect(m, id).value, NewOwners(own, id, m.pool[0]))
    ensures AllPages(Protect(m, id).value) == AllPages(m)
  {
    var d := m.pool[0];
    var m', own' := Protect(m, id).value, NewOwners(own, id, d);
    assert Created(m, own, m', own', id, d);
    KernelKept(m, own, m', own');
    forall i | i in m'.spaces
      ensures SpaceOk(m', own', i)
    {
      if i != id {
        assert SpaceOk(m, own, i);
      }
      CreatedSpace(m, own, m', own', id, d, i);
    }
    forall p | p in own'
      ensures Rooted(m', own', p)
    {
      CreatedRooted(m, own, m', own', id, d, p);
    }
    assert m.pool == [d] + m.pool[1..];
  }

  /** A new address space has no user page, and the others keep their translations. */
  lemma ProtectTranslate(m: Machine, own: Owners, id: nat, i: nat, n: nat)
    requires Inv(m, own) && m.pool != [] && n < PAGES
    requires i == id || i in m.spaces
    ensures var m' := Protect(m, id).value;
            if i == id then UserVpn(n) ==> Translate(m', m'.spaces[id], n) == None
            else Translate(m', m.spaces[i], n) == Translate(m, m.spaces[i], n)
  {
    var m', d := Protect(m, id).value, m.pool[0];
    EntryParts(d, 5);
    assert m'.mem == m.mem[d := SharedDir(m.mem[m.kpt])];
    if i != id {
      TableOwner(m, own, i, n / ENTRIES);
      SameTables(m, m', m.spaces[i], n);
    }
  }

  // ----- destruction -----

  ghost predicate TableFrom(own: Owners, id: nat, k: nat, p: nat) {
    p in own && own[p].UserTable? && own[p].id == id && own[p].k >= k
  }

  /** Each listed table is a user table of the address space. */
  lemma {:induction false} UserTablesSound(m: Machine, own: Owners, id: nat, k: nat, p: nat)
    requires Inv(m, own) && id in m.spaces && k <= ENTRIES && DirOf(m, id) in m.mem
    requires p in UserTables(m.mem[DirOf(m, id)][k..])
    ensures TableFrom(own, id, k, p)
    decreases ENTRIES - k
  {
    var dir := m.mem[DirOf(m, id)];
    if k < ENTRIES {
      assert dir[k..][1..] == dir[k + 1..] && dir[k..][0] == dir[k];
      TableIsUser(m, own, id, k);
      if p in UserTables(dir[k + 1..]) {
        UserTablesSound(m, own, id, k + 1, p);
      }
    }
  }

  lemma UserTablesFirst(dir: seq<Word>, k: nat)
    requires k < |dir|
    ensures UserTables(dir[k..])
         == (if P(dir[k]) && User(dir[k]) then [PageOf(dir[k])] else []) + UserTables(dir[k + 1..])
  {
    assert dir[k..][1..] == dir[k + 1..] && dir[k..][0] == dir[k];
  }

  /** No table is listed twice. */
  lemma {:induction false} UserTablesDistinct(m: Machine, own: Owners, id: nat, k: nat, i: nat, j: nat)
    requires Inv(m, own) && id in m.spaces && k <= ENTRIES && DirOf(m, id) in m.mem
    requires i < j < |UserTables(m.mem[DirOf(m, id)][k..])|
    ensures UserTables(m.mem[DirOf(m, id)][k..])[i] != UserTables(m.mem[DirOf(m, id)][k..])[j]
    decreases ENTRIES - k
  {
    var dir := m.mem[DirOf(m, id)];
    if k < ENTRIES {
      var s, tail := UserTables(dir[k..]), UserTables(dir[k + 1..]);
      UserTablesFirst(dir, k);
      if P(dir[k]) && User(dir[k]) {
        TableIsUser(m, own, id, k);
        UserTablesSound(m, own, id, k + 1, s[j]);
        if i > 0 {
          UserTablesDistinct(m, own, id, k + 1, i - 1, j - 1);
        }
      } else {
        UserTablesDistinct(m, own, id, k + 1, i, j);
      }
    }
  }

  /** Every user table of the address space is listed. */
  lemma {:induction false} UserTablesComplete(m: Machine, own: Owners, id: nat, k: nat, p: nat)
    requires Inv(m, own) && id in m.spaces && k <= ENTRIES && DirOf(m, id) in m.mem
    requires TableFrom(own, id, k, p)
    ensures p in UserTables(m.mem[DirOf(m, id)][k..])
    decreases ENTRIES - k
  {
    var dir := m.mem[DirOf(m, id)];
    assert Rooted(m, own, p);
    if k < ENTRIES {
      assert dir[k..][1..] == dir[k + 1..] && dir[k..][0] == dir[k];
      TableIsUser(m, own, id, k);
      if own[p].k > k {
        UserTablesComplete(m, own, id, k + 1, p);
      }
    }
  }

  /** Present and user-accessible entries are exactly the owned user tables. */
  lemma TableIsUser(m: Machine, own: Owners, id: nat, k: nat)
    requires Inv(m, own) && id in m.spaces && k < ENTRIES && DirOf(m, id) in m.mem
    ensures var e := m.mem[DirOf(m, id)][k];
            && (P(e) && User(e) ==> PageOf(e) in own && own[PageOf(e)] == UserTable(id, k))
            && (UserIndex(k) && P(e) ==> User(e))
  {
    assert SpaceOk(m, own, id);
    assert DirEntryOk(m, own, id, k);
    assert KernelEntryOk(m, own, k);
    var e := m.mem[DirOf(m, id)][k];
    if KernelIndex(k) {
      ThreeBits(e);
    } else if UserIndex(k) && e != 0 {
      SevenBits(e);
    }
  }

  lemma TornElements(m: Machine, own: Owners, id: nat, p: nat)
    requires Inv(m, own) && Reachable(m, id)
    ensures p in Torn(m, id) <==> p in Owned(own, id)
  {
    assert SpaceOk(m, own, id);
    var dir := m.mem[DirOf(m, id)];
    assert dir[0..] == dir;
    assert p in Torn(m, id) <==> p in UserTables(dir) || p == DirOf(m, id);
    if p in UserTables(dir) {
      UserTablesSound(m, own, id, 0, p);
    }
    if TableFrom(own, id, 0, p) {
      UserTablesComplete(m, own, id, 0, p);
    }
    if p in own {
      assert Rooted(m, own, p);
    }
  }

  /** What teardown frees: the directory and every user table, each exactly once. */
  lemma TornIsOwned(m: Machine, own: Owners, id: nat)
    requires Inv(m, own) && Reachable(m, id)
    ensures var t := Torn(m, id);
            && (set p | p in t) == Owned(own, id)
            && (forall i, j :: 0 <= i < j < |t| ==> t[i] != t[j])
            && (forall i :: 0 <= i < |t| ==> t[i] in m.mem && 0 < t[i] < PAGES)
  {
    var t := Torn(m, id);
    forall p
      ensures p in t <==> p in Owned(own, id)
    {
      TornElements(m, own, id, p);
    }
    TornDistinct(m, own, id);
    forall i | 0 <= i < |t|
      ensures t[i] in m.mem && 0 < t[i] < PAGES
    {
      assert t[i] in Owned(own, id);
    }
  }

  /** A frame that some space has mapped is freed exactly if it is itself a table of the space that
      is destroyed. */
  lemma MappedFrameFreed(m: Machine, own: Owners, id: nat, i: nat, n: nat)
    requires Inv(m, own) && Reachable(m, id) && i in m.spaces && n < PAGES
    requires Translate(m, m.spaces[i], n).Some?
    ensures var f := Translate(m, m.spaces[i], n).value.frame;
            f in Torn(m, id) <==>
              f == DirOf(m, id) || (exists k :: 0 <= k < ENTRIES && UserIndex(k) && IsTable(m, id, k, f))
  {
    var f := Translate(m, m.spaces[i], n).value.frame;
    TornElements(m, own, id, f);
    assert SpaceOk(m, own, id);
    if f in own {
      assert Rooted(m, own, f);
      if own[f].UserTable? && own[f].id == id {
        assert IsTable(m, id, own[f].k, f);
      }
    }
    forall k | 0 <= k < ENTRIES && UserIndex(k) && IsTable(m, id, k, f)
      ensures f in Owned(own, id)
    {
      TableIsUser(m, own, id, k);
    }
  }

  /** Page p is the table for directory index k of address space id. */
  predicate IsTable(m: Machine, id: nat, k: nat, p: nat)
    requires id in m.spaces && DirOf(m, id) in m.mem && k < ENTRIES
  {
    P(m.mem[DirOf(m, id)][k]) && PageOf(m.mem[DirOf(m, id)][k]) == p
  }

  /** That can happen, since any page can be mapped: a space that maps its own directory has a mapped
      frame freed when it is destroyed. */
  lemma OwnDirectoryMapped(m: Machine, own: Owners, id: nat, va: Word, prot: nat) returns (m': Machine)
    requires Inv(m, own) && Reachable(m, id) && prot != 0
    requires !MapPanics(m, id, va, DirOf(m, id) * PGSIZE, prot)
    ensures MapPage(m, id, va, DirOf(m, id) * PGSIZE, prot) == Some(m') && Reachable(m', id)
    ensures var t := Translate(m', m'.spaces[id], PageOf(va)); t.Some? && t.value.frame in Torn(m', id)
  {
    var pa: Word := DirOf(m, id) * PGSIZE;
    var own' := MapPageCorrect(m, own, id, va, pa, prot);
    m' := MapPage(m, id, va, pa, prot).value;
    assert SpaceOk(m', own', id);
    InvReachable(m', own', id);
    assert PageOf(pa) == DirOf(m, id);
  }

  lemma TornDistinct(m: Machine, own: Owners, id: nat)
    requires Inv(m, own) && Reachable(m, id)
    ensures forall i, j :: 0 <= i < j < |Torn(m, id)| ==> Torn(m, id)[i] != Torn(m, id)[j]
  {
    assert SpaceOk(m, own, id);
    var dir, t := m.mem[DirOf(m, id)], Torn(m, id);
    assert dir[0..] == dir;
    forall i, j | 0 <= i < j < |t|
      ensures t[i] != t[j]
    {
      if j < |t| - 1 {
        UserTablesDistinct(m, own, id, 0, i, j);
      } else {
        assert t[i] in UserTables(dir);
        UserTablesSound(m, own, id, 0, t[i]);
      }
    }
  }

  lemma {:induction false} FreeAllResult(m: Machine, pages: seq<nat>)
    requires forall i :: 0 <= i < |pages| ==> 0 < pages[i] < PAGES
    ensures FreeAll(m, pages) == m.(mem := m.mem - (set p | p in pages), pool := m.pool + pages)
    decreases |pages|
  {
    if pages == [] {
      assert m.mem - {} == m.mem && m.pool + [] == m.pool;
    } else {
      var f := Free(m, pages[0]);
      FreeAllResult(f, pages[1..]);
      assert (set p | p in pages) == {pages[0]} + (set p | p in pages[1..]);
      assert m.mem - {pages[0]} - (set p | p in pages[1..]) == m.mem - (set p | p in pages);
      assert m.pool + [pages[0]] + pages[1..] == m.pool + pages;
    }
  }

  /** The pages an address space would free are real pages. */
  predicate CanTear(m: Machine, id: nat) {
    Reachable(m, id) && forall i :: 0 <= i < |Torn(m, id)| ==> 0 < Torn(m, id)[i] < PAGES
  }

  /** The state after destroying an address space; its pointer word is gone with it. */
  function Unprotect(m: Machine, id: nat): Machine
    requires CanTear(m, id)
  {
    var f := FreeAll(m, Torn(m, id));
    f.(spaces := f.spaces - {id})
  }

  /** Destroying an address space returns its directory and its tables to the allocator, each once
      and nothing else: no kernel table, no table of another space. */
  lemma UnprotectCorrect(m: Machine, own: Owners, id: nat)
    requires Inv(m, own) && Reachable(m, id)
    ensures CanTear(m, id)
    ensures var m' := Unprotect(m, id);
            && m'.pool == m.pool + Torn(m, id)
            && m'.mem == m.mem - Owned(own, id)
            && m'.spaces == m.spaces - {id} && m'.kpt == m.kpt
            && AllPages(m') == AllPages(m)
  {
    TornIsOwned(m, own, id);
    FreeAllResult(m, Torn(m, id));
  }

  /** m' is m without the pages and the pointer word of address space id. */
  ghost predicate Removed(m: Machine, own: Owners, m': Machine, own': Owners, id: nat) {
    && own.Keys == m.mem.Keys && own' == own - Owned(own, id)
    && m'.mem == m.mem - Owned(own, id) && m'.spaces == m.spaces - {id} && m'.kpt == m.kpt
  }

  lemma RemovedKernel(m: Machine, own: Owners, m': Machine, own': Owners, id: nat)
    requires Removed(m, own, m', own', id) && KernelOk(m, own)
    ensures KernelOk(m', own')
  {
    KernelKept(m, own, m', own');
  }

  lemma RemovedSpace(m: Machine, own: Owners, m': Machine, own': Owners, id: nat, i: nat)
    requires Removed(m, own, m', own', id) && KernelOk(m, own)
    requires i in m'.spaces && SpaceOk(m, own, i)
    ensures m'.kpt in m'.mem && SpaceOk(m', own', i)
  {
    SpaceKept(m, own, m', own', i);
  }

  lemma RemovedRooted(m: Machine, own: Owners, m': Machine, own': Owners, id: nat, p: nat)
    requires Removed(m, own, m', own', id) && KernelOk(m, own)
    requires p in own' && Rooted(m, own, p)
    requires own[p].UserTable? && own[p].id in m.spaces ==> SpaceOk(m, own, own[p].id)
    ensures m'.kpt in m'.mem && Rooted(m', own', p)
  {
    assert own'[p] == own[p];
  }

  lemma UnprotectInv(m: Machine, own: Owners, id: nat)
    requires Inv(m, own) && CanTear(m, id)
    ensures Inv(Unprotect(m, id), own - Owned(own, id))
  {
    UnprotectCorrect(m, own, id);
    var m', own' := Unprotect(m, id), own - Owned(own, id);
    RemovedKernel(m, own, m', own', id);
    forall i | i in m'.spaces
      ensures SpaceOk(m', own', i)
    {
      assert SpaceOk(m, own, i);
      RemovedSpace(m, own, m', own', id, i);
    }
    forall p | p in own'
      ensures Rooted(m', own', p)
    {
      assert Rooted(m, own, p);
      if own[p].UserTable? {
        assert SpaceOk(m, own, own[p].id);
      }
      RemovedRooted(m, own, m', own', id, p);
    }
    PoolAfterFree(m, m', own, id);
  }

  lemma PoolAfterFree(m: Machine, m': Machine, own: Owners, id: nat)
    requires Inv(m, own) && Reachable(m, id)
    requires m'.pool == m.pool + Torn(m, id) && m'.mem == m.mem - Owned(own, id)
    ensures PoolOk(m')
  {
    TornIsOwned(m, own, id);
    var t := Torn(m, id);
    forall i | 0 <= i < |m'.pool|
      ensures m'.pool[i] !in m'.mem
    {
      if i >= |m.pool| {
        assert t[i - |m.pool|] in (set p | p in t);
      }
    }
  }

  /** The other address spaces do not notice. */
  lemma UnprotectTranslate(m: Machine, own: Owners, id: nat, i: nat, n: nat)
    requires Inv(m, own) && CanTear(m, id) && i in m.spaces && i != id && n < PAGES
    ensures Translate(Unprotect(m, id), m.spaces[i], n) == Translate(m, m.spaces[i], n)
  {
    UnprotectCorrect(m, own, id);
    TableOwner(m, own, i, n / ENTRIES);
    SameTables(m, Unprotect(m, id), m.spaces[i], n);
  }
}
