/** The virtual memory extension as the kernel runs it: page tables, allocator and address spaces
    updated in place. */
module VmeClass {
  import opened Options
  import opened VmeModel
  import opened VmeInvariant
  import opened VmeMap
  import opened VmeSpace
  import opened VmeInit

  /** Where the walk currently is: at the pointer word of the address space, or at a table. */
  datatype Cursor = AtPointer | AtTable(page: nat)

  class Vme {
    var mem: map<nat, Table>
    var pool: seq<Page>
    var kpt: nat
    var spaces: map<nat, Word>
    ghost var own: Owners

    ghost function State(): Machine
      reads this
    {
      Machine(mem, pool, kpt, spaces)
    }

    ghost predicate Valid()
      reads this
    {
      Inv(State(), own)
    }

    /** A page from the allocator with all entries cleared; false is the out-of-memory panic. */
    method PgAllocZ() returns (ok: bool, page: nat)
      modifies this`mem, this`pool
      ensures ok == Alloc(old(State())).Some?
      ensures ok ==> State() == Alloc(old(State())).value.0 && page == Alloc(old(State())).value.1
      ensures !ok ==> State() == old(State())
    {
      if pool == [] {
        return false, 0;
      }
      page := pool[0];
      pool := pool[1..];
      var t: Table :| true;
      for i := 0 to ENTRIES
        invariant forall j :: 0 <= j < i ==> t[j] == 0
      {
        t := t[i := 0];
      }
      assert t == ZeroTable();
      mem := mem[page := t];
      ok := true;
    }

    /** Walks down the levels to the entry that maps `va`, allocating missing tables. */
    method PtWalk(ptr0: Word, va: Word, flags: nat) returns (ok: bool, ptr: Word, page: nat, index: nat)
      requires flags < 7 && (P(ptr0) ==> PageOf(ptr0) in mem)
      modifies this`mem, this`pool
      ensures var w := VmeModel.PtWalk(old(State()), ptr0, va, flags);
              && (ok <==> w.Some?)
              && (ok ==> w == Some(Walked(State(), ptr, page, index)))
    {
      ptr := ptr0;
      page, index := 0, 0;
      var cur := AtPointer;
      var level := 0;
      while level < 2
        invariant 0 <= level <= 2
        invariant level == 0 ==> cur == AtPointer && ptr == ptr0 && State() == old(State())
        invariant level == 1 ==> cur.AtTable? && cur.page in mem
        invariant level == 1 ==> DescendRoot(old(State()), ptr0, flags) == Some((State(), ptr, cur.page))
        invariant level == 2 ==> cur.AtTable?
        invariant level == 2 ==>
          VmeModel.PtWalk(old(State()), ptr0, va, flags) == Some(Walked(State(), ptr, cur.page, TabIndex(va)))
      {
        var i := if level == 0 then 0 else DirIndex(va);
        var e := if cur.AtPointer? then ptr else mem[cur.page][i];
        if !P(e) {
          var got, next := PgAllocZ();
          if !got {
            return false, ptr, 0, 0;
          }
          if cur.AtPointer? {
            ptr := Entry(next, 1 + flags);
          } else {
            mem := mem[cur.page := mem[cur.page][i := Entry(next, 1 + flags)]];
          }
          cur := AtTable(next);
        } else {
          cur := AtTable(PageOf(e));
        }
        level := level + 1;
      }
      return true, ptr, cur.page, TabIndex(va);
    }

    /** Writes the entry the walk found, and walks once more. */
    method WriteAndWalk(ptr: Word, va: Word, pa: Word, prot: nat, page: nat, index: nat) returns (ok: bool)
      requires page in mem && index < ENTRIES
      requires P(ptr) && PageOf(ptr) in mem
      modifies this`mem, this`pool
      ensures var m1 := WriteEntry(Walked(old(State()), ptr, page, index), pa, prot);
              if m1.None? then !ok
              else var w := VmeModel.PtWalk(m1.value, ptr, va, 6);
                   (ok <==> w.Some?) && (ok ==> State() == w.value.m)
    {
      if prot == 0 {
        if !P(mem[page][index]) {
          return false;
        }
        mem := mem[page := mem[page][index := 0]];
      } else {
        if P(mem[page][index]) {
          return false;
        }
        mem := mem[page := mem[page][index := NewEntry(pa, prot)]];
      }
      var p, x, i;
      ok, p, x, i := PtWalk(ptr, va, 6);
    }

    /** Maps or unmaps one user page; false is a panic. */
    method Map(id: nat, va: Word, pa: Word, prot: nat) returns (ok: bool)
      requires Valid() && id in spaces
      modifies this
      ensures old(Reachable(State(), id))
      ensures ok == !old(MapPanics(State(), id, va, pa, prot))
      ensures ok ==> Valid() && MapPage(old(State()), id, va, pa, prot) == Some(State())
      ensures ok ==> OneChange(old(State()), State(), id, PageOf(va), NewMapping(pa, prot))
      ensures ok ==> AllPages(State()) == old(AllPages(State()))
    {
      ghost var m := State();
      assert SpaceOk(m, own, id);
      InvReachable(m, own, id);
      ghost var own1 := MapPageCorrect(m, own, id, va, pa, prot);
      if !(USER_START <= va < USER_END) {
        return false;
      }
      if va % PGSIZE != 0 || pa % PGSIZE != 0 {
        return false;
      }
      UserBlock(va);
      var walked, ptr, page, index := PtWalk(spaces[id], va, 6);
      if !walked {
        return false;
      }
      WalkedSafe(m, own, id, va);
      ok := WriteAndWalk(spaces[id], va, pa, prot, page, index);
      own := own1;
    }

    /** The entry a user walk returns lies in memory, and so does the directory. */
    static lemma WalkedSafe(m: Machine, own: Owners, id: nat, va: Word)
      requires Inv(m, own) && Reachable(m, id) && UserIndex(DirIndex(va))
      requires VmeModel.PtWalk(m, m.spaces[id], va, 6).Some?
      ensures var w := VmeModel.PtWalk(m, m.spaces[id], va, 6).value;
              && w.ptr == m.spaces[id] && w.m.spaces == m.spaces
              && w.page in w.m.mem && w.index < ENTRIES && PageOf(m.spaces[id]) in w.m.mem
    {
      var own' := WalkUser(m, own, id, va);
    }

    /** Copies the directory entries of one area; the end address 0 stands for 2^32. */
    method CopyArea(dst: Table, src: Table, start: Word, end: Word) returns (t: Table)
      requires start % 0x40_0000 == 0 && end % 0x40_0000 == 0 && start != end && (start < end || end == 0)
      ensures forall k :: 0 <= k < ENTRIES ==>
        t[k] == if start / 0x40_0000 <= k && (end == 0 || k < end / 0x40_0000) then src[k] else dst[k]
    {
      t := dst;
      var cur: Word := start;
      while cur != end
        invariant cur % 0x40_0000 == 0
        invariant start <= cur || cur == 0
        invariant end != 0 ==> start <= cur <= end
        invariant forall k :: 0 <= k < ENTRIES ==>
          t[k] == if start / 0x40_0000 <= k && ((cur == 0 && start != 0) || k < cur / 0x40_0000) then src[k] else dst[k]
        decreases if cur == 0 && start != 0 then 0 else 0x1_0000_0000 - cur
      {
        var index := DirIndex(cur);
        t := t[index := src[index]];
        cur := (cur + 0x40_0000) % 0x1_0000_0000;
      }
    }

    /** The kernel areas of a cleared directory. */
    method CopyKernel(zero: Table, kernel: Table) returns (t: Table)
      requires zero == ZeroTable()
      ensures t == SharedDir(kernel)
    {
      t := CopyArea(zero, kernel, 0, USER_START);
      t := CopyArea(t, kernel, IO_START, 0);
    }

    /** A new address space: a directory that shares the kernel's entries and nothing else.  What a
        space of this name owned before is lost. */
    method Protect(id: nat) returns (ok: bool)
      requires Valid()
      modifies this
      ensures ok == (old(pool) != [])
      ensures ok ==> Valid() && VmeModel.Protect(old(State()), id) == Some(State())
      ensures ok ==> LostPages(own) == old(LostPages(own) + Owned(own, id))
      ensures !ok ==> State() == old(State())
    {
      ghost var m := State();
      var upt;
      ok, upt := PgAllocZ();
      if !ok {
        return;
      }
      ReadyToCreate(m, own, id);
      var t := CopyKernel(mem[upt], mem[kpt]);
      mem := mem[upt := t];
      spaces := spaces[id := Entry(upt, 5)];
      assert State() == VmeModel.Protect(m, id).value;
      own := NewOwners(own, id, upt);
    }

    static lemma ReadyToCreate(m: Machine, own: Owners, id: nat)
      requires Inv(m, own) && m.pool != []
      ensures Inv(VmeModel.Protect(m, id).value, NewOwners(own, id, m.pool[0]))
      ensures LostPages(NewOwners(own, id, m.pool[0])) == LostPages(own) + Owned(own, id)
      ensures m.kpt != m.pool[0]
    {
      ProtectInv(m, own, id);
      NewOwnersLost(own, id, m.pool[0]);
    }

    // ----- teardown -----

    /** The user tables a directory points to are pages in use, all different. */
    static ghost predicate Tearable(m: Machine, d: nat) {
      && d in m.mem
      && var s := UserTables(m.mem[d]);
         && (forall i :: 0 <= i < |s| ==> s[i] in m.mem && s[i] != d && 0 < s[i] < PAGES)
         && (forall i, j :: 0 <= i < j < |s| ==> s[i] != s[j])
    }

    /** Frees the table at `page` of the given level and, below it, the user tables it points to. */
    method Teardown(level: nat, page: nat)
      requires 1 <= level <= 3
      requires level <= 2 ==> page in mem && 0 < page < PAGES
      requires level == 1 ==> Tearable(State(), page)
      modifies this`mem, this`pool
      ensures level == 3 ==> State() == old(State())
      ensures level == 2 ==> State() == Free(old(State()), page)
      ensures level == 1 ==> State() == FreeAll(old(State()), old(UserTables(mem[page])) + [page])
      decreases 3 - level
    {
      if level > 2 {
        return;
      }
      ghost var m := State();
      ghost var dir := mem[page];
      ghost var all := UserTables(dir);
      for index := 0 to ENTRIES
        invariant page in mem && mem[page] == dir && kpt == m.kpt && spaces == m.spaces
        invariant level == 2 ==> State() == m
        invariant level == 1 ==> UserTables(dir[..index]) <= all
        invariant level == 1 ==> State() == FreeAll(m, UserTables(dir[..index]))
      {
        ghost var before := UserTables(dir[..index]);
        UserTablesStep(dir, index);
        assert before + [] == before;
        if P(mem[page][index]) && User(mem[page][index]) {
          if level == 1 {
            assert all[|before|] == PageOf(dir[index]);
            FreeAllResult(m, before);
            FreeAllAppend(m, before, PageOf(dir[index]));
          }
          Teardown(level + 1, PageOf(mem[page][index]));
        }
      }
      if level == 1 {
        assert dir[..ENTRIES] == dir;
        FreeAllAppend(m, all, page);
      }
      mem := mem - {page};
      pool := pool + [page];
    }

    /** Destroys an address space: teardown from its pointer word, which is present and for users.
        The pointer word itself is dead afterwards. */
    method Unprotect(id: nat)
      requires Valid() && id in spaces
      modifies this
      ensures Valid() && old(CanTear(State(), id))
      ensures State() == VmeSpace.Unprotect(old(State()), id)
      ensures pool == old(pool) + Torn(old(State()), id)
      ensures (set p | p in Torn(old(State()), id)) == old(Owned(own, id))
      ensures AllPages(State()) == old(AllPages(State()))
    {
      ReadyToTear(State(), own, id);
      if P(spaces[id]) && User(spaces[id]) {
        Teardown(1, PageOf(spaces[id]));
      }
      spaces := spaces - {id};
      own := own - Owned(own, id);
    }

    static lemma ReadyToTear(m: Machine, own: Owners, id: nat)
      requires Inv(m, own) && id in m.spaces
      ensures P(m.spaces[id]) && User(m.spaces[id]) && CanTear(m, id)
      ensures 0 < PageOf(m.spaces[id]) < PAGES && Tearable(m, PageOf(m.spaces[id]))
      ensures (set p | p in Torn(m, id)) == Owned(own, id)
      ensures var f := FreeAll(m, Torn(m, id));
              && VmeSpace.Unprotect(m, id) == f.(spaces := m.spaces - {id}) && f.kpt == m.kpt
              && f.pool == m.pool + Torn(m, id)
      ensures AllPages(VmeSpace.Unprotect(m, id)) == AllPages(m)
      ensures Inv(VmeSpace.Unprotect(m, id), own - Owned(own, id))
    {
      assert SpaceOk(m, own, id);
      LowBits(m.spaces[id]);
      InvReachable(m, own, id);
      UnprotectCorrect(m, own, id);
      TornIsOwned(m, own, id);
      TornSplit(m, own, id);
      UnprotectInv(m, own, id);
    }

    static lemma TornSplit(m: Machine, own: Owners, id: nat)
      requires Inv(m, own) && Reachable(m, id)
      ensures 0 < PageOf(m.spaces[id]) < PAGES && Tearable(m, PageOf(m.spaces[id]))
    {
      TornIsOwned(m, own, id);
      var d := PageOf(m.spaces[id]);
      var s, t := UserTables(m.mem[d]), Torn(m, id);
      assert t[|s|] == d;
      forall i | 0 <= i < |s|
        ensures s[i] == t[i]
      {
      }
    }

    // ----- initialisation -----

    /** Maps one kernel page to itself; false is the out-of-memory panic. */
    method MapKernelPage(ptr0: Word, cur: Word, ghost n: nat, ghost a: nat, ghost b: nat, ghost a': nat, ghost b': nat)
      returns (ok: bool, ptr: Word)
      requires cur == n * PGSIZE && Next(a, b, n, a', b') && Under(State(), own, ptr0, a, b)
      modifies this
      ensures ok <==> old(|pool|) + Used(ptr0, a, b) >= 1 + Blocks(a', b')
      ensures ok ==> ptr != 0 && Under(State(), own, ptr, a', b')
      ensures ok ==> |pool| + 1 + Blocks(a', b') == old(|pool|) + Used(ptr0, a, b)
      ensures ok ==> AllPages(State()) == old(AllPages(State()))
    {
      ghost var m := State();
      UnderSafe(m, own, ptr0, a, b);
      KernelCount(m, own, ptr0, cur, n, a, b, a', b');
      var page, index;
      ok, ptr, page, index := PtWalk(ptr0, cur, 2);
      if !ok {
        return;
      }
      own := KernelStep(m, own, ptr0, cur, n, a, b, a', b');
      mem := mem[page := mem[page][index := cur + 3]];
    }

    /** Maps one kernel area page by page; the end address 0 stands for 2^32. */
    method MapArea(ptr0: Word, start: Word, end: Word, ghost io: bool) returns (ok: bool, ptr: Word)
      requires if io then start == IO_START && end == 0 else start == 0 && end == USER_START
      requires Under(State(), own, ptr0, if io then KERNEL_PAGES else 0, IO_PAGE)
      modifies this
      ensures var needed := 1 + Blocks(KERNEL_PAGES, if io then PAGES else IO_PAGE);
              var had := old(|pool|) + Used(ptr0, if io then KERNEL_PAGES else 0, IO_PAGE);
              (ok <==> had >= needed) && (ok ==> |pool| + needed == had)
      ensures ok ==> ptr != 0 && Under(State(), own, ptr, KERNEL_PAGES, if io then PAGES else IO_PAGE)
      ensures ok ==> AllPages(State()) == old(AllPages(State()))
    {
      ptr := ptr0;
      var cur: Word := start;
      ghost var first, last := if io then IO_PAGE else 0, if io then PAGES else KERNEL_PAGES;
      ghost var n, a, b, pages := first, if io then KERNEL_PAGES else 0, IO_PAGE, AllPages(State());
      ghost var had := |pool| + Used(ptr0, a, b);
      ok := true;
      while cur != end
        invariant ok && first <= n <= last && (cur == end <==> n == last)
        invariant n < last ==> cur == n * PGSIZE
        invariant a == (if io then KERNEL_PAGES else n) && b == (if io then n else IO_PAGE)
        invariant Under(State(), own, ptr, a, b)
        invariant if n > first then ptr != 0 else ptr == ptr0
        invariant |pool| + Used(ptr, a, b) == had
        invariant AllPages(State()) == pages
        decreases last - n
      {
        AreaStep(io, cur, n);
        ghost var a', b' := if io then KERNEL_PAGES else n + 1, if io then n + 1 else IO_PAGE;
        BlocksMonotone(a', b', KERNEL_PAGES, if io then PAGES else IO_PAGE);
        ok, ptr := MapKernelPage(ptr, cur, n, a, b, a', b');
        if !ok {
          return;
        }
        cur := (cur + PGSIZE) % 0x1_0000_0000;
        n, a, b := n + 1, a', b';
      }
    }

    /** Builds the kernel page tables from an empty machine; false is the out-of-memory panic. */
    method Init() returns (ok: bool)
      requires mem == map[] && spaces == map[] && PoolOk(State())
      modifies this
      ensures ok <==> old(|pool|) >= KERNEL_TABLES
      ensures ok ==> Valid() && spaces == map[] && |pool| == old(|pool|) - KERNEL_TABLES
      ensures ok ==> AllPages(State()) == old(AllPages(State()))
    {
      own := map[];
      var ptr;
      ok, ptr := MapAreas();
      if ok {
        Built(State(), own, ptr);
        kpt := PageOf(ptr);
      }
    }

    /** Both kernel areas, one after the other. */
    method MapAreas() returns (ok: bool, ptr: Word)
      requires mem == map[] && spaces == map[] && own == map[] && PoolOk(State())
      modifies this
      ensures ok <==> old(|pool|) >= KERNEL_TABLES
      ensures ok ==> Building(State(), own, ptr, KERNEL_PAGES, PAGES) && spaces == map[]
      ensures ok ==> |pool| == old(|pool|) - KERNEL_TABLES && AllPages(State()) == old(AllPages(State()))
    {
      BlocksTotal();
      ok, ptr := MapArea(0, 0, USER_START, false);
      if ok {
        ok, ptr := MapArea(ptr, IO_START, 0, true);
      }
    }

    static lemma {:induction false} FreeAllAppend(m: Machine, pages: seq<nat>, p: nat)
      requires forall i :: 0 <= i < |pages| ==> 0 < pages[i] < PAGES
      requires 0 < p < PAGES
      ensures FreeAll(m, pages + [p]) == Free(FreeAll(m, pages), p)
      decreases |pages|
    {
      if pages == [] {
        assert pages + [p] == [p] && [p][1..] == [];
      } else {
        assert (pages + [p])[1..] == pages[1..] + [p];
        FreeAllAppend(Free(m, pages[0]), pages[1..], p);
      }
    }

    /** The tables among the first entries are a prefix of all tables. */
    static lemma UserTablesStep(dir: Table, k: nat)
      requires k < ENTRIES
      ensures UserTables(dir[..k + 1]) == UserTables(dir[..k]) + (if P(dir[k]) && User(dir[k]) then [PageOf(dir[k])] else [])
      ensures UserTables(dir[..k + 1]) <= UserTables(dir)
    {
      UserTablesConcat(dir[..k], [dir[k]]);
      assert dir[..k] + [dir[k]] == dir[..k + 1];
      assert [dir[k]][1..] == [];
      UserTablesConcat(dir[..k + 1], dir[k + 1..]);
      assert dir[..k + 1] + dir[k + 1..] == dir;
    }

    static lemma {:induction false} UserTablesConcat(a: seq<Word>, b: seq<Word>)
      ensures UserTables(a + b) == UserTables(a) + UserTables(b)
    {
      if a == [] {
        assert a + b == b;
      } else {
        assert (a + b)[1..] == a[1..] + b;
        UserTablesConcat(a[1..], b);
      }
    }
  }
}
