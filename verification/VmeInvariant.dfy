/** What every operation on page tables keeps: who owns which page, and that nothing else is
    shared. */
module VmeInvariant {
  import opened Options
  import opened VmeModel

  /** The role of a page in use: the kernel directory, the kernel table for directory index k, the
      directory of an address space, its user table for directory index k, or a page that nothing
      leads to any more because its space was created a second time. */
  datatype Owner = KernelDir | KernelTable(k: nat) | Dir(id: nat) | UserTable(id: nat, k: nat) | Lost

  type Owners = map<nat, Owner>

  /** The pages of one address space. */
  ghost function Owned(own: Owners, id: nat): set<nat> {
    set p | p in own && (own[p] == Dir(id) || (own[p].UserTable? && own[p].id == id))
  }

  ghost function LostPages(own: Owners): set<nat> {
    set p | p in own && own[p] == Lost
  }

  function DirOf(m: Machine, id: nat): nat
    requires id in m.spaces
  {
    PageOf(m.spaces[id])
  }

  ghost predicate PoolOk(m: Machine) {
    && (forall i :: 0 <= i < |m.pool| ==> m.pool[i] !in m.mem)
    && (forall i, j :: 0 <= i < j < |m.pool| ==> m.pool[i] != m.pool[j])
  }

  /** Kernel entry k is present and writable but not for users, and its table maps the block to
      itself. */
  ghost predicate KernelEntryOk(m: Machine, own: Owners, k: nat)
    requires m.kpt in m.mem && k < ENTRIES
  {
    var e := m.mem[m.kpt][k];
    if KernelIndex(k) then
      && e % 8 == 3 && PageOf(e) in m.mem && PageOf(e) in own && own[PageOf(e)] == KernelTable(k)
      && (forall j :: 0 <= j < ENTRIES ==> m.mem[PageOf(e)][j] == Entry(k * ENTRIES + j, 3))
    else e == 0
  }

  ghost predicate KernelOk(m: Machine, own: Owners) {
    && m.kpt in m.mem && m.kpt in own && own[m.kpt] == KernelDir
    && (forall k :: 0 <= k < ENTRIES ==> KernelEntryOk(m, own, k))
  }

  /** Entry k of a user directory: the kernel's entry, an owned user table, or nothing. */
  ghost predicate DirEntryOk(m: Machine, own: Owners, id: nat, k: nat)
    requires m.kpt in m.mem && id in m.spaces && DirOf(m, id) in m.mem && k < ENTRIES
  {
    var e := m.mem[DirOf(m, id)][k];
    if KernelIndex(k) then e == m.mem[m.kpt][k]
    else if UserIndex(k) && e != 0 then
      e % 8 == 7 && PageOf(e) in m.mem && PageOf(e) in own && own[PageOf(e)] == UserTable(id, k)
    else e == 0
  }

  ghost predicate SpaceOk(m: Machine, own: Owners, id: nat)
    requires m.kpt in m.mem && id in m.spaces
  {
    && m.spaces[id] % 8 == 5
    && DirOf(m, id) in m.mem && DirOf(m, id) in own && own[DirOf(m, id)] == Dir(id)
    && (forall k :: 0 <= k < ENTRIES ==> DirEntryOk(m, own, id, k))
  }

  /** A page in use is where its owner says. */
  ghost predicate Rooted(m: Machine, own: Owners, p: nat)
    requires m.kpt in m.mem && p in own
  {
    match own[p]
    case KernelDir => p == m.kpt
    case KernelTable(k) => k < ENTRIES && KernelIndex(k) && p == PageOf(m.mem[m.kpt][k])
    case Dir(id) => id in m.spaces && p == DirOf(m, id)
    case UserTable(id, k) =>
      && k < ENTRIES && UserIndex(k) && id in m.spaces && DirOf(m, id) in m.mem
      && P(m.mem[DirOf(m, id)][k]) && p == PageOf(m.mem[DirOf(m, id)][k])
    case Lost => true
  }

  ghost predicate Inv(m: Machine, own: Owners) {
    && own.Keys == m.mem.Keys
    && (forall p :: p in m.mem ==> 0 < p < PAGES)
    && PoolOk(m)
    && KernelOk(m, own)
    && (forall id :: id in m.spaces ==> SpaceOk(m, own, id))
    && (forall p :: p in own ==> Rooted(m, own, p))
  }

  /** All pages the system knows: in use or in the allocator. */
  ghost function AllPages(m: Machine): set<nat> {
    m.mem.Keys + (set p | p in m.pool)
  }

  lemma EntryReaches(m: Machine, own: Owners, id: nat, k: nat)
    requires m.kpt in m.mem && k < ENTRIES && KernelEntryOk(m, own, k)
    requires id in m.spaces && DirOf(m, id) in m.mem && DirEntryOk(m, own, id, k)
    ensures P(m.mem[DirOf(m, id)][k]) ==> PageOf(m.mem[DirOf(m, id)][k]) in m.mem
  {
  }

  lemma InvReachable(m: Machine, own: Owners, id: nat)
    requires KernelOk(m, own) && id in m.spaces && SpaceOk(m, own, id)
    ensures Reachable(m, id)
  {
    var dir := m.mem[DirOf(m, id)];
    forall k | 0 <= k < ENTRIES && P(dir[k])
      ensures PageOf(dir[k]) in m.mem
    {
      EntryReaches(m, own, id, k);
    }
  }

  // ----- framing -----

  /** Page p has the same owner in both ownership maps and is still in use. */
  ghost predicate Keeps(m': Machine, own: Owners, own': Owners, p: nat)
    requires p in own
  {
    p in m'.mem && p in own' && own'[p] == own[p]
  }

  ghost predicate KernelPage(own: Owners, p: nat)
    requires p in own
  {
    own[p].KernelDir? || own[p].KernelTable?
  }

  /** The kernel's tables only depend on the kernel's pages. */
  lemma KernelKept(m: Machine, own: Owners, m': Machine, own': Owners)
    requires KernelOk(m, own) && own.Keys == m.mem.Keys && m'.kpt == m.kpt
    requires forall p :: p in own && KernelPage(own, p) ==> Keeps(m', own, own', p) && m'.mem[p] == m.mem[p]
    ensures KernelOk(m', own')
  {
    assert KernelPage(own, m.kpt);
    forall k | 0 <= k < ENTRIES
      ensures KernelEntryOk(m', own', k)
    {
      assert KernelEntryOk(m, own, k);
      if KernelIndex(k) {
        assert KernelPage(own, PageOf(m.mem[m.kpt][k]));
      }
    }
  }

  /** An address space only depends on the kernel directory, its own directory, and the ownership
      of its tables. */
  lemma SpaceKept(m: Machine, own: Owners, m': Machine, own': Owners, id: nat)
    requires m.kpt in m.mem && id in m.spaces && SpaceOk(m, own, id) && own.Keys == m.mem.Keys
    requires m'.kpt == m.kpt && m'.kpt in m'.mem && m'.mem[m.kpt] == m.mem[m.kpt]
    requires id in m'.spaces && m'.spaces[id] == m.spaces[id]
    requires forall p :: p in own && (own[p] == Dir(id) || (own[p].UserTable? && own[p].id == id))
               ==> Keeps(m', own, own', p)
    requires DirOf(m, id) in m'.mem && m'.mem[DirOf(m, id)] == m.mem[DirOf(m, id)]
    ensures SpaceOk(m', own', id)
  {
    forall k | 0 <= k < ENTRIES
      ensures DirEntryOk(m', own', id, k)
    {
      assert DirEntryOk(m, own, id, k);
    }
  }

  // ----- adding a user table -----

  /** The state after giving address space `id` a fresh, empty table for directory index k. */
  function AddTable(m: Machine, id: nat, k: nat): Machine
    requires id in m.spaces && DirOf(m, id) in m.mem && k < ENTRIES && m.pool != []
  {
    SetEntry(Alloc(m).value.0, DirOf(m, id), k, Entry(m.pool[0], 7))
  }

  ghost predicate CanAdd(m: Machine, own: Owners, id: nat, k: nat) {
    && Inv(m, own) && id in m.spaces && UserIndex(k) && m.pool != []
    && DirOf(m, id) in m.mem && m.mem[DirOf(m, id)][k] == 0
  }

  lemma AddTableKernel(m: Machine, own: Owners, id: nat, k: nat)
    requires CanAdd(m, own, id, k)
    ensures KernelOk(AddTable(m, id, k), own[m.pool[0] := UserTable(id, k)])
    ensures AddTable(m, id, k).mem[m.kpt] == m.mem[m.kpt]
  {
    assert SpaceOk(m, own, id);
    KernelKept(m, own, AddTable(m, id, k), own[m.pool[0] := UserTable(id, k)]);
  }

  /** m' is m with the fresh page z hung into directory entry k of address space id. */
  ghost predicate Added(m: Machine, own: Owners, m': Machine, own': Owners, id: nat, k: nat, z: nat) {
    && m.kpt in m.mem && m.kpt in m'.mem && id in m.spaces && UserIndex(k) && 0 < z < PAGES
    && z !in own && own.Keys == m.mem.Keys && own' == own[z := UserTable(id, k)]
    && m'.kpt == m.kpt && m'.spaces == m.spaces && m'.mem[m.kpt] == m.mem[m.kpt]
    && DirOf(m, id) in m.mem && m.mem[DirOf(m, id)][k] == 0
    && m'.mem == m.mem[z := ZeroTable()][DirOf(m, id) := m.mem[DirOf(m, id)][k := Entry(z, 7)]]
  }

  lemma AddTableEntry(m: Machine, own: Owners, m': Machine, own': Owners, id: nat, k: nat, z: nat, j: nat)
    requires Added(m, own, m', own', id, k, z) && j < ENTRIES
    requires DirEntryOk(m, own, id, j)
    ensures DirEntryOk(m', own', id, j)
  {
    EntryParts(z, 7);
    var d := DirOf(m, id);
    assert m'.mem[d] == m.mem[d][k := Entry(z, 7)];
    assert z in m'.mem && own'[z] == UserTable(id, k);
    if j != k && UserIndex(j) && m.mem[d][j] != 0 {
      assert PageOf(m.mem[d][j]) != z;
    }
  }

  lemma AddTableOwn(m: Machine, own: Owners, m': Machine, own': Owners, id: nat, k: nat, z: nat)
    requires Added(m, own, m', own', id, k, z) && SpaceOk(m, own, id)
    ensures SpaceOk(m', own', id)
  {
    forall j | 0 <= j < ENTRIES
      ensures DirEntryOk(m', own', id, j)
    {
      assert DirEntryOk(m, own, id, j);
      AddTableEntry(m, own, m', own', id, k, z, j);
    }
  }

  lemma AddTableOther(m: Machine, own: Owners, m': Machine, own': Owners, id: nat, k: nat, z: nat, i: nat)
    requires Added(m, own, m', own', id, k, z) && SpaceOk(m, own, id)
    requires i in m.spaces && i != id && SpaceOk(m, own, i)
    ensures SpaceOk(m', own', i)
  {
    assert own[DirOf(m, i)] != own[DirOf(m, id)];
    SpaceKept(m, own, m', own', i);
  }

  lemma AddTableRooted(m: Machine, own: Owners, m': Machine, own': Owners, id: nat, k: nat, z: nat, p: nat)
    requires Added(m, own, m', own', id, k, z)
    requires p in own ==> Rooted(m, own, p)
    requires p in own || p == z
    ensures Rooted(m', own', p)
  {
    var d := DirOf(m, id);
    assert m'.mem[d] == m.mem[d][k := Entry(z, 7)];
    if p in own {
      assert own'[p] == own[p];
      match own[p] {
        case UserTable(i, j) =>
          var di := DirOf(m, i);
          assert di != z;
          if di == d {
            assert j != k;
          }
        case _ =>
      }
    }
  }

  lemma AddTableInv(m: Machine, own: Owners, id: nat, k: nat)
    requires CanAdd(m, own, id, k)
    ensures Inv(AddTable(m, id, k), own[m.pool[0] := UserTable(id, k)])
    ensures AllPages(AddTable(m, id, k)) == AllPages(m)
  {
    var m', own' := AddTable(m, id, k), own[m.pool[0] := UserTable(id, k)];
    AddTableKernel(m, own, id, k);
    assert m.pool[0] !in m.mem && DirOf(m, id) != m.pool[0];
    forall i | i in m'.spaces
      ensures SpaceOk(m', own', i)
    {
      assert SpaceOk(m, own, id);
      assert SpaceOk(m, own, i);
      if i == id {
        AddTableOwn(m, own, m', own', id, k, m.pool[0]);
      } else {
        AddTableOther(m, own, m', own', id, k, m.pool[0], i);
      }
    }
    forall p | p in own'
      ensures Rooted(m', own', p)
    {
      AddTableRooted(m, own, m', own', id, k, m.pool[0], p);
    }
    assert m.pool == [m.pool[0]] + m.pool[1..];
  }

  // ----- writing an entry of a user table -----

  lemma SetLeafInv(m: Machine, own: Owners, p: nat, j: nat, w: Word)
    requires Inv(m, own) && p in own && own[p].UserTable? && j < ENTRIES
    ensures Inv(SetEntry(m, p, j, w), own)
    ensures AllPages(SetEntry(m, p, j, w)) == AllPages(m)
  {
    var m' := SetEntry(m, p, j, w);
    KernelKept(m, own, m', own);
    assert m'.mem.Keys == m.mem.Keys;
    forall i | i in m'.spaces
      ensures SpaceOk(m', own, i)
    {
      assert SpaceOk(m, own, i);
      SpaceKept(m, own, m', own, i);
    }
    forall x | x in own
      ensures Rooted(m', own, x)
    {
      assert Rooted(m, own, x);
      if own[x].UserTable? {
        assert SpaceOk(m, own, own[x].id);
      }
    }
  }

  // ----- the walk of a user address -----

  /** The walk for a user page ends in a table owned by the address space for that block; it either
      changes nothing or adds that table. */
  lemma WalkUser(m: Machine, own: Owners, id: nat, va: Word) returns (own': Owners)
    requires Inv(m, own) && id in m.spaces && UserIndex(DirIndex(va))
    requires Reachable(m, id) && PtWalk(m, m.spaces[id], va, 6).Some?
    ensures var w := PtWalk(m, m.spaces[id], va, 6).value;
            var k := DirIndex(va);
            && Inv(w.m, own') && w.m.spaces == m.spaces && AllPages(w.m) == AllPages(m)
            && w.page in own' && own'[w.page] == UserTable(id, k) && w.index == TabIndex(va)
            && P(w.m.mem[DirOf(m, id)][k]) && w.page == PageOf(w.m.mem[DirOf(m, id)][k])
            && (w.m == m || (CanAdd(m, own, id, k) && w.m == AddTable(m, id, k)))
    ensures LostPages(own') == LostPages(own)
  {
    var k := DirIndex(va);
    assert SpaceOk(m, own, id);
    assert DirEntryOk(m, own, id, k);
    if P(m.mem[DirOf(m, id)][k]) {
      own' := own;
    } else {
      assert CanAdd(m, own, id, k);
      AddTableInv(m, own, id, k);
      own' := own[m.pool[0] := UserTable(id, k)];
      assert DirOf(m, id) != m.pool[0];
    }
  }

  /** Walking again to the same place allocates nothing and changes nothing. */
  lemma WalkAgain(m: Machine, own: Owners, id: nat, va: Word, page: nat)
    requires Inv(m, own) && id in m.spaces && Reachable(m, id)
    requires P(m.mem[DirOf(m, id)][DirIndex(va)]) && page == PageOf(m.mem[DirOf(m, id)][DirIndex(va)])
    ensures PtWalk(m, m.spaces[id], va, 6) == Some(Walked(m, m.spaces[id], page, TabIndex(va)))
  {
  }
}
