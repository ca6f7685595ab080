/** Building the kernel's identity mapping page by page. */
module VmeInit {
  import opened VmeModel
  import opened VmeInvariant

  const KERNEL_PAGES: nat := 0x4_0000
  const IO_PAGE: nat := 0xF_D000

  /** Progress: pages [0, a) of the kernel area and [IO_PAGE, b) of the I/O area are mapped. */
  predicate Done(a: nat, b: nat, n: nat) { n < a || IO_PAGE <= n < b }

  predicate InProgress(a: nat, b: nat) {
    a <= KERNEL_PAGES && IO_PAGE <= b <= PAGES && (b > IO_PAGE ==> a == KERNEL_PAGES)
  }

  /** Block k: its table exists once its first page is mapped, and holds the mapped pages. */
  ghost predicate BlockOk(m: Machine, own: Owners, d: nat, a: nat, b: nat, k: nat)
    requires d in m.mem && k < ENTRIES
  {
    var e := m.mem[d][k];
    if Done(a, b, k * ENTRIES) then
      && e % 8 == 3 && PageOf(e) in m.mem && PageOf(e) in own && own[PageOf(e)] == KernelTable(k)
      && (forall j :: 0 <= j < ENTRIES ==>
            m.mem[PageOf(e)][j] == if Done(a, b, k * ENTRIES + j) then Entry(k * ENTRIES + j, 3) else 0)
    else e == 0
  }

  ghost predicate OwnedByBlock(m: Machine, own: Owners, d: nat, a: nat, b: nat, p: nat)
    requires d in m.mem && p in own
  {
    match own[p]
    case KernelDir => p == d
    case KernelTable(k) => k < ENTRIES && Done(a, b, k * ENTRIES) && p == PageOf(m.mem[d][k])
    case _ => false
  }

  /** The state of the kernel mapping loop, once the directory exists. */
  ghost predicate Building(m: Machine, own: Owners, ptr: Word, a: nat, b: nat) {
    && own.Keys == m.mem.Keys && PoolOk(m) && (forall p :: p in m.mem ==> 0 < p < PAGES)
    && ptr % 8 == 3 && PageOf(ptr) in m.mem && own[PageOf(ptr)] == KernelDir
    && (forall k :: 0 <= k < ENTRIES ==> BlockOk(m, own, PageOf(ptr), a, b, k))
    && (forall p :: p in own ==> OwnedByBlock(m, own, PageOf(ptr), a, b, p))
  }

  /** The next page of the mapping loop. */
  predicate Next(a: nat, b: nat, n: nat, a': nat, b': nat) {
    && InProgress(a, b) && InProgress(a', b')
    && ((n == a && a' == a + 1 && b' == b) || (n == b && a' == a && b' == b + 1))
  }

  lemma NextDone(a: nat, b: nat, n: nat, a': nat, b': nat, x: nat)
    requires Next(a, b, n, a', b') && x < PAGES
    ensures n < PAGES
    ensures Done(a', b', x) <==> Done(a, b, x) || x == n
    ensures !Done(a, b, n)
    ensures x / ENTRIES != n / ENTRIES ==>
              (Done(a', b', x / ENTRIES * ENTRIES) <==> Done(a, b, x / ENTRIES * ENTRIES))
    ensures Done(a', b', n / ENTRIES * ENTRIES)
    ensures !Done(a, b, n / ENTRIES * ENTRIES) ==> n % ENTRIES == 0
  {
  }

  /** The directory page comes first. */
  lemma BuildRoot(m: Machine, own: Owners) returns (own': Owners)
    requires m.mem == map[] && own == map[] && m.pool != [] && PoolOk(m)
    ensures var r := DescendRoot(m, 0, 2);
            r.Some? && Building(r.value.0, own', r.value.1, 0, IO_PAGE) && r.value.2 == PageOf(r.value.1)
            && AllPages(r.value.0) == AllPages(m)
  {
    own' := map[m.pool[0] := KernelDir];
    EntryParts(m.pool[0], 3);
    var r := DescendRoot(m, 0, 2);
    forall k | 0 <= k < ENTRIES
      ensures BlockOk(r.value.0, own', PageOf(r.value.1), 0, IO_PAGE, k)
    {
    }
    assert m.pool == [m.pool[0]] + m.pool[1..];
  }

  /** The table for a new block, before its first page is written. */
  ghost predicate TableReady(m: Machine, own: Owners, d: nat, a: nat, b: nat, n: nat, p: nat)
    requires d in m.mem && n < PAGES
  {
    var k := n / ENTRIES;
    && m.mem[d][k] % 8 == 3 && PageOf(m.mem[d][k]) == p && p in m.mem && p in own && own[p] == KernelTable(k)
    && (forall j :: 0 <= j < ENTRIES ==>
          m.mem[p][j] == if Done(a, b, k * ENTRIES + j) then Entry(k * ENTRIES + j, 3) else 0)
  }

  /** Everything but block n / ENTRIES is as in a finished step. */
  ghost predicate OthersReady(m: Machine, own: Owners, d: nat, a: nat, b: nat, n: nat)
    requires d in m.mem && n < PAGES
  {
    && own.Keys == m.mem.Keys && PoolOk(m) && (forall p :: p in m.mem ==> 0 < p < PAGES)
    && d in own && own[d] == KernelDir
    && (forall k :: 0 <= k < ENTRIES && k != n / ENTRIES ==> BlockOk(m, own, d, a, b, k))
    && (forall p :: p in own && own[p] != KernelTable(n / ENTRIES) ==> OwnedByBlock(m, own, d, a, b, p))
    && (forall p :: p in own && own[p] == KernelTable(n / ENTRIES) ==> p == PageOf(m.mem[d][n / ENTRIES]))
  }

  lemma BuildWalk(m: Machine, own: Owners, ptr: Word, a: nat, b: nat, n: nat, a': nat, b': nat) returns (own': Owners)
    requires Building(m, own, ptr, a, b) && n < PAGES && Next(a, b, n, a', b')
    requires Descend(m, PageOf(ptr), n / ENTRIES, 2).Some?
    ensures var r := Descend(m, PageOf(ptr), n / ENTRIES, 2).value;
            && PageOf(ptr) in r.0.mem && AllPages(r.0) == AllPages(m)
            && r.0.spaces == m.spaces && r.0.kpt == m.kpt
            && TableReady(r.0, own', PageOf(ptr), a, b, n, r.1)
            && OthersReady(r.0, own', PageOf(ptr), a, b, n)
  {
    var d, k := PageOf(ptr), n / ENTRIES;
    var r := Descend(m, d, k, 2).value;
    NextDone(a, b, n, a', b', n);
    assert BlockOk(m, own, d, a, b, k);
    LowBits(m.mem[d][k]);
    if Done(a, b, k * ENTRIES) {
      own' := own;
    } else {
      var z := m.pool[0];
      own' := own[z := KernelTable(k)];
      EntryParts(z, 3);
      assert r.0.mem == m.mem[z := ZeroTable()][d := m.mem[d][k := Entry(z, 3)]];
      assert m.pool == [z] + m.pool[1..];
      forall y: nat | k * ENTRIES <= y < (k + 1) * ENTRIES
        ensures !Done(a, b, y)
      {
        NextDone(a, b, n, a', b', y);
      }
      forall x | 0 <= x < ENTRIES && x != k
        ensures BlockOk(r.0, own', d, a, b, x)
      {
        assert BlockOk(m, own, d, a, b, x);
      }
      forall p | p in own' && own'[p] != KernelTable(k)
        ensures OwnedByBlock(r.0, own', d, a, b, p)
      {
        assert OwnedByBlock(m, own, d, a, b, p);
      }
      forall p | p in own
        ensures own[p] != KernelTable(k)
      {
        assert OwnedByBlock(m, own, d, a, b, p);
      }
    }
  }

  /** Writing the entry of page n completes a step of the loop. */
  lemma BuildWrite(m: Machine, own: Owners, ptr: Word, a: nat, b: nat, n: nat, p: nat, a': nat, b': nat)
    requires Next(a, b, n, a', b') && n < PAGES
    requires ptr % 8 == 3 && PageOf(ptr) in m.mem
    requires TableReady(m, own, PageOf(ptr), a, b, n, p) && OthersReady(m, own, PageOf(ptr), a, b, n)
    ensures var m' := SetEntry(m, p, n % ENTRIES, Entry(n, 3));
            Building(m', own, ptr, a', b') && AllPages(m') == AllPages(m)
  {
    var m', d, k := SetEntry(m, p, n % ENTRIES, Entry(n, 3)), PageOf(ptr), n / ENTRIES;
    assert m'.mem.Keys == m.mem.Keys;
    forall x | 0 <= x < ENTRIES
      ensures BlockOk(m', own, d, a', b', x)
    {
      NextDone(a, b, n, a', b', x * ENTRIES);
      if x != k {
        assert BlockOk(m, own, d, a, b, x);
      }
      forall y: nat | y < PAGES
        ensures Done(a', b', y) <==> Done(a, b, y) || y == n
      {
        NextDone(a, b, n, a', b', y);
      }
    }
    forall q | q in own
      ensures OwnedByBlock(m', own, d, a', b', q)
    {
      if own[q] != KernelTable(k) {
        assert OwnedByBlock(m, own, d, a, b, q);
        if own[q].KernelTable? {
          NextDone(a, b, n, a', b', own[q].k * ENTRIES);
        }
      } else {
        NextDone(a, b, n, a', b', n);
      }
    }
  }

  /** The finished mapping is the kernel part of the invariant. */
  lemma Built(m: Machine, own: Owners, ptr: Word)
    requires Building(m, own, ptr, KERNEL_PAGES, PAGES) && m.spaces == map[]
    ensures Inv(m.(kpt := PageOf(ptr)), own)
  {
    var m', d := m.(kpt := PageOf(ptr)), PageOf(ptr);
    forall k | 0 <= k < ENTRIES
      ensures KernelEntryOk(m', own, k)
    {
      assert BlockOk(m, own, d, KERNEL_PAGES, PAGES, k);
    }
    forall p | p in own
      ensures Rooted(m', own, p)
    {
      assert OwnedByBlock(m, own, d, KERNEL_PAGES, PAGES, p);
    }
  }

  /** The state of initialisation: nothing yet, or the mapping loop at progress (a, b). */
  ghost predicate Under(m: Machine, own: Owners, ptr: Word, a: nat, b: nat) {
    && m.spaces == map[]
    && if ptr == 0 then m.mem == map[] && own == map[] && PoolOk(m) && a == 0 && b == IO_PAGE
       else Building(m, own, ptr, a, b)
  }

  lemma PageIndices(cur: Word, n: nat)
    requires cur == n * PGSIZE
    ensures n < PAGES && DirIndex(cur) == n / ENTRIES && TabIndex(cur) == n % ENTRIES
    ensures cur + 3 == Entry(n, 3)
  {
  }

  /** After the root level of the walk the directory exists. */
  lemma RootStep(m: Machine, own: Owners, ptr: Word, a: nat, b: nat) returns (own': Owners)
    requires Under(m, own, ptr, a, b) && DescendRoot(m, ptr, 2).Some?
    ensures var r := DescendRoot(m, ptr, 2).value;
            && r.1 != 0 && r.2 == PageOf(r.1) && Building(r.0, own', r.1, a, b)
            && r.0.spaces == map[] && AllPages(r.0) == AllPages(m)
  {
    LowBits(ptr);
    if ptr == 0 {
      own' := BuildRoot(m, own);
    } else {
      own' := own;
    }
  }

  /** One page of the kernel mapping loop, from the directory on. */
  lemma DirStep(m: Machine, own: Owners, ptr: Word, n: nat, a: nat, b: nat, a': nat, b': nat)
    returns (own': Owners)
    requires n < PAGES && Next(a, b, n, a', b') && Building(m, own, ptr, a, b) && m.spaces == map[]
    requires Descend(m, PageOf(ptr), n / ENTRIES, 2).Some?
    ensures var r := Descend(m, PageOf(ptr), n / ENTRIES, 2).value;
            && r.1 in r.0.mem && r.0.spaces == map[]
            && Building(SetEntry(r.0, r.1, n % ENTRIES, Entry(n, 3)), own', ptr, a', b')
            && AllPages(SetEntry(r.0, r.1, n % ENTRIES, Entry(n, 3))) == AllPages(m)
  {
    own' := BuildWalk(m, own, ptr, a, b, n, a', b');
    var r := Descend(m, PageOf(ptr), n / ENTRIES, 2).value;
    BuildWrite(r.0, own', ptr, a, b, n, r.1, a', b');
  }

  /** One page of the kernel mapping loop. */
  lemma KernelStep(m: Machine, own: Owners, ptr: Word, cur: Word, n: nat, a: nat, b: nat, a': nat, b': nat)
    returns (own': Owners)
    requires cur == n * PGSIZE && Next(a, b, n, a', b') && Under(m, own, ptr, a, b)
    requires P(ptr) ==> PageOf(ptr) in m.mem
    requires PtWalk(m, ptr, cur, 2).Some?
    ensures var w := PtWalk(m, ptr, cur, 2).value;
            && w.page in w.m.mem && w.index < ENTRIES && w.ptr != 0
            && Under(SetEntry(w.m, w.page, w.index, cur + 3), own', w.ptr, a', b')
            && AllPages(SetEntry(w.m, w.page, w.index, cur + 3)) == AllPages(m)
  {
    PageIndices(cur, n);
    var own1 := RootStep(m, own, ptr, a, b);
    var r := DescendRoot(m, ptr, 2).value;
    own' := DirStep(r.0, own1, r.1, n, a, b, a', b');
  }

  // ----- how many pages it takes -----

  /** Tables for the blocks that are started. */
  function Blocks(a: nat, b: nat): nat
    requires IO_PAGE <= b
  {
    (a + ENTRIES - 1) / ENTRIES + (b - IO_PAGE + ENTRIES - 1) / ENTRIES
  }

  /** Pages taken so far: none, or the directory and one table per started block. */
  function Used(ptr: Word, a: nat, b: nat): nat
    requires IO_PAGE <= b
  {
    if ptr == 0 then 0 else 1 + Blocks(a, b)
  }

  /** The directory, 256 kernel tables and 12 tables for memory-mapped I/O. */
  const KERNEL_TABLES: nat := 269

  lemma BlocksTotal()
    ensures Blocks(KERNEL_PAGES, IO_PAGE) == 256 && Blocks(KERNEL_PAGES, PAGES) == KERNEL_TABLES - 1
  {
  }

  lemma BlocksMonotone(a: nat, b: nat, a': nat, b': nat)
    requires IO_PAGE <= b <= b' && a <= a'
    ensures Blocks(a, b) <= Blocks(a', b')
  {
  }

  /** A page takes a table exactly when it is the first of its block. */
  lemma BlocksStep(a: nat, b: nat, n: nat, a': nat, b': nat)
    requires Next(a, b, n, a', b')
    ensures Blocks(a', b') == Blocks(a, b) + if Done(a, b, n / ENTRIES * ENTRIES) then 0 else 1
  {
  }

  /** The table level of the walk. */
  lemma DirCount(m: Machine, own: Owners, ptr: Word, n: nat, a: nat, b: nat, a': nat, b': nat)
    requires n < PAGES && Next(a, b, n, a', b') && Building(m, own, ptr, a, b)
    ensures var r, more := Descend(m, PageOf(ptr), n / ENTRIES, 2), Blocks(a', b') - Blocks(a, b);
            && (r.Some? <==> |m.pool| >= more)
            && (r.Some? ==> |r.value.0.pool| == |m.pool| - more)
  {
    BlocksStep(a, b, n, a', b');
    assert BlockOk(m, own, PageOf(ptr), a, b, n / ENTRIES);
    LowBits(m.mem[PageOf(ptr)][n / ENTRIES]);
  }

  /** One page of the mapping loop finds the memory it needs exactly if the pool holds it. */
  lemma KernelCount(m: Machine, own: Owners, ptr: Word, cur: Word, n: nat, a: nat, b: nat, a': nat, b': nat)
    requires cur == n * PGSIZE && Next(a, b, n, a', b') && Under(m, own, ptr, a, b)
    requires P(ptr) ==> PageOf(ptr) in m.mem
    ensures var w, more := PtWalk(m, ptr, cur, 2), 1 + Blocks(a', b') - Used(ptr, a, b);
            && more >= 0
            && (w.Some? <==> |m.pool| >= more)
            && (w.Some? ==> |w.value.m.pool| == |m.pool| - more)
  {
    PageIndices(cur, n);
    LowBits(ptr);
    BlocksStep(a, b, n, a', b');
    var r := DescendRoot(m, ptr, 2);
    if r.Some? {
      var own1 := RootStep(m, own, ptr, a, b);
      DirCount(r.value.0, own1, r.value.1, n, a, b, a', b');
    }
  }

  lemma UnderSafe(m: Machine, own: Owners, ptr: Word, a: nat, b: nat)
    requires Under(m, own, ptr, a, b)
    ensures P(ptr) ==> PageOf(ptr) in m.mem
  {
    LowBits(ptr);
  }

  /** How the address variable of the loop follows the page number, up to the wrap to 0. */
  lemma AreaStep(io: bool, cur: Word, n: nat)
    requires if io then IO_PAGE <= n < PAGES else n < KERNEL_PAGES
    requires cur == n * PGSIZE
    ensures Next(if io then KERNEL_PAGES else n, if io then n else IO_PAGE, n,
                 if io then KERNEL_PAGES else n + 1, if io then n + 1 else IO_PAGE)
    ensures var next := (cur + PGSIZE) % 0x1_0000_0000;
            && (next == (if io then 0 else USER_START) <==> n + 1 == (if io then PAGES else KERNEL_PAGES))
            && (n + 1 < PAGES ==> next == (n + 1) * PGSIZE)
  {
  }
}
