/** Two-level 32-bit page tables of the x86 port: machine words, memory, the table walk, and the
    operations on address spaces as functions on machine states. */
module VmeModel {
  import opened Options
  import opened Bits

  const PGSIZE: nat := 4096
  const ENTRIES: nat := 1024
  const PAGES: nat := 0x10_0000

  type Word = x: nat | x < 0x1_0000_0000

  /** A page number; page zero is never handed out, its address is the null pointer. */
  type Page = p: nat | 0 < p < PAGES witness 1

  /** A page holding a page table. */
  type Table = t: seq<Word> | |t| == ENTRIES witness seq(ENTRIES, _ => 0)

  // ----- entries -----

  // An entry holds a page address and flag bits: present (1), writable (2), user (4).

  predicate P(w: Word) { w % 2 == 1 }
  predicate Writable(w: Word) { w / 2 % 2 == 1 }
  predicate User(w: Word) { w / 4 % 2 == 1 }
  function PageOf(w: Word): (p: nat)
    ensures p < PAGES
  {
    w / PGSIZE
  }

  function Entry(page: nat, flags: nat): Word
    requires page < PAGES && flags < 8
  {
    page * PGSIZE + flags
  }

  lemma EntryParts(page: nat, flags: nat)
    requires page < PAGES && flags < 8
    ensures var e := Entry(page, flags);
            && PageOf(e) == page && e % 8 == flags
            && (P(e) <==> flags % 2 == 1) && (Writable(e) <==> flags / 2 % 2 == 1)
            && (User(e) <==> flags / 4 == 1)
  {
    var e := Entry(page, flags);
    DivModUnique(e, 4096, page, flags);
    DivModUnique(e, 8, page * 512, flags);
    DivModUnique(e, 2, page * 2048 + flags / 2, flags % 2);
    DivModUnique(e, 4, page * 1024 + flags / 4, flags % 4);
    DivModUnique(e / 2, 2, page * 1024 + flags / 4, flags / 2 % 2);
    DivModUnique(e / 4, 2, page * 512, flags / 4);
  }

  /** The flags are the low three bits. */
  lemma LowBits(e: Word)
    ensures P(e) <==> e % 8 % 2 == 1
    ensures Writable(e) <==> e % 8 / 2 % 2 == 1
    ensures User(e) <==> e % 8 / 4 == 1
  {
    var q, r := e / 8, e % 8;
    DivModUnique(e, 2, 4 * q + r / 2, r % 2);
    DivModUnique(e, 4, 2 * q + r / 4, r % 4);
    DivModUnique(e / 2, 2, 2 * q + r / 4, r / 2 % 2);
    DivModUnique(e / 4, 2, q, r / 4);
  }

  /** The indices a virtual address selects at the two levels. */
  function DirIndex(va: Word): (i: nat)
    ensures i < ENTRIES
  {
    va / 0x40_0000
  }

  function TabIndex(va: Word): (i: nat)
    ensures i < ENTRIES
  {
    va / PGSIZE % ENTRIES
  }

  /** The arithmetic forms above are the masks and shifts of the source. */
  lemma FlagBit(w: Word, k: nat, p: nat)
    requires p == Pow2(k)
    ensures And(w, p) != 0 <==> w / p % 2 == 1
  {
    AndField(w, k, 1);
    assert Pow2(1) == 2;
    ShlIsMul(1, k);
    ShrIsDiv(w, k);
    ShlIsMul(w / p % 2, k);
  }

  lemma EntryFlags(w: Word)
    ensures And(w, 1) != 0 <==> P(w)
    ensures And(w, 2) != 0 <==> Writable(w)
    ensures And(w, 4) != 0 <==> User(w)
  {
    assert Pow2(0) == 1 && Pow2(1) == 2 && Pow2(2) == 4;
    FlagBit(w, 0, 1);
    FlagBit(w, 1, 2);
    FlagBit(w, 2, 4);
  }

  /** Masking a field and moving it down. */
  lemma FieldBits(w: Word, k: nat, b: nat, p: nat, q: nat, mask: nat)
    requires p == Pow2(k) && q == Pow2(b) && mask == (q - 1) * p
    ensures And(w, mask) == w / p % q * p && Shr(And(w, mask), k) == w / p % q
  {
    AndField(w, k, b);
    ShlIsMul(q - 1, k);
    ShrIsDiv(w, k);
    ShlIsMul(w / p % q, k);
    ShrShl(w / p % q, k);
  }

  lemma EntryPage(w: Word)
    ensures And(w, 0xFFFF_F000) == PageOf(w) * PGSIZE
  {
    assert Pow2(12) == 4096 && Pow2(20) == 0x10_0000;
    FieldBits(w, 12, 20, 4096, 0x10_0000, 0xFFFF_F000);
  }

  lemma IndexBits(va: Word)
    ensures Shr(And(va, 0xFFC0_0000), 22) == DirIndex(va)
    ensures Shr(And(va, 0x3F_F000), 12) == TabIndex(va)
  {
    assert Pow2(10) == 1024 && Pow2(12) == 4096;
    Pow2Add(10, 12);
    FieldBits(va, 22, 10, 0x40_0000, 1024, 0xFFC0_0000);
    FieldBits(va, 12, 10, 4096, 1024, 0x3F_F000);
  }

  /** next_page | PTE_P | flags for flags within W and U. */
  lemma MakeEntryBits(page: Page, flags: nat)
    requires flags == 2 || flags == 4 || flags == 6
    ensures Or(Or(page * PGSIZE, 1), flags) == Entry(page, 1 + flags)
  {
    assert Pow2(12) == 4096 && Pow2(1) == 2;
    OrDisjoint(page, 1, 12);
    var x := page * PGSIZE + 1;
    assert x / 2 == page * 2048 && flags / 2 < 4096;
    assert Pow2(11) == 2048;
    OrDisjoint(page, flags / 2, 11);
  }

  // ----- memory -----

  /** `mem` holds the pages in use as tables, `pool` the pages the allocator still has, `kpt` the
      kernel directory, and `spaces` the pointer word of each address space. */
  datatype Machine = Machine(mem: map<nat, Table>, pool: seq<Page>, kpt: nat, spaces: map<nat, Word>)

  function ZeroTable(): Table { seq(ENTRIES, _ => 0) }

  function SetEntry(m: Machine, page: nat, index: nat, w: Word): Machine
    requires page in m.mem && index < ENTRIES
  {
    m.(mem := m.mem[page := m.mem[page][index := w]])
  }

  /** A zeroed page from the allocator; without one the kernel panics. */
  function Alloc(m: Machine): (r: Option<(Machine, nat)>)
    ensures r.Some? ==> 0 < r.value.1 < PAGES
  {
    if m.pool == [] then None
    else Some((m.(mem := m.mem[m.pool[0] := ZeroTable()], pool := m.pool[1..]), m.pool[0]))
  }

  function Free(m: Machine, page: Page): Machine {
    m.(mem := m.mem - {page}, pool := m.pool + [page])
  }

  // ----- the walk -----

  /** Where a walk ended: the state, the pointer word, and the entry found. */
  datatype Walked = Walked(m: Machine, ptr: Word, page: nat, index: nat)

  /** One level of the walk below the pointer word of the address space. */
  function DescendRoot(m: Machine, ptr: Word, flags: nat): Option<(Machine, Word, nat)>
    requires flags < 7
  {
    if P(ptr) then Some((m, ptr, PageOf(ptr)))
    else
      var a := Alloc(m);
      if a.None? then None else Some((a.value.0, Entry(a.value.1, 1 + flags), a.value.1))
  }

  /** One level of the walk below an entry of a table. */
  function Descend(m: Machine, page: nat, index: nat, flags: nat): Option<(Machine, nat)>
    requires page in m.mem && index < ENTRIES && flags < 7
  {
    var e := m.mem[page][index];
    if P(e) then Some((m, PageOf(e)))
    else
      var a := Alloc(m);
      if a.None? then None
      else Some((SetEntry(a.value.0, page, index, Entry(a.value.1, 1 + flags)), a.value.1))
  }

  /** The entry that maps `va`, allocating the tables on the way that are missing. */
  function PtWalk(m: Machine, ptr: Word, va: Word, flags: nat): Option<Walked>
    requires P(ptr) ==> PageOf(ptr) in m.mem
    requires flags < 7
  {
    var a := DescendRoot(m, ptr, flags);
    if a.None? then None
    else
      var b := Descend(a.value.0, a.value.2, DirIndex(va), flags);
      if b.None? then None
      else Some(Walked(b.value.0, a.value.1, b.value.1, TabIndex(va)))
  }

  // ----- areas -----

  const USER_START: nat := 0x4000_0000
  const USER_END: nat := 0x8000_0000
  const IO_START: nat := 0xFD00_0000

  predicate UserIndex(k: nat) { 256 <= k < 512 }
  predicate KernelIndex(k: nat) { k < 256 || 1012 <= k < 1024 }

  predicate UserVpn(n: nat) { 0x4_0000 <= n < 0x8_0000 }

  // ----- operations -----

  /** Every table the walks of address space `id` can reach is in memory. */
  predicate Reachable(m: Machine, id: nat) {
    && id in m.spaces && P(m.spaces[id]) && PageOf(m.spaces[id]) in m.mem
    && var dir := m.mem[PageOf(m.spaces[id])];
       forall k :: 0 <= k < ENTRIES && P(dir[k]) ==> PageOf(dir[k]) in m.mem
  }

  /** The entry to be written: nothing when unmapping, else pa | P | U and W if asked for. */
  function NewEntry(pa: Word, prot: nat): Word {
    if prot == 0 then 0 else Entry(PageOf(pa), 5 + (if prot / 2 % 2 == 1 then 2 else 0))
  }

  /** Writes the entry for `va`: unmaps if `prot` is 0, else maps.  None is a panic. */
  function WriteEntry(w: Walked, pa: Word, prot: nat): Option<Machine>
    requires w.page in w.m.mem && w.index < ENTRIES
  {
    if (prot == 0) != P(w.m.mem[w.page][w.index]) then None
    else Some(SetEntry(w.m, w.page, w.index, NewEntry(pa, prot)))
  }

  function MapPage(m: Machine, id: nat, va: Word, pa: Word, prot: nat): Option<Machine>
    requires Reachable(m, id)
  {
    if !(USER_START <= va < USER_END) then None
    else if va % PGSIZE != 0 || pa % PGSIZE != 0 then None
    else
      var w := PtWalk(m, m.spaces[id], va, 6);
      if w.None? then None
      else
        var m' := WriteEntry(w.value, pa, prot);
        if m'.None? then None
        else
          var again := PtWalk(m'.value, m.spaces[id], va, 6);
          if again.None? then None else Some(again.value.m)
  }

  /** The directory of a new address space: the kernel's entries, nothing else. */
  function SharedDir(kernel: Table): Table {
    seq(ENTRIES, k requires 0 <= k < ENTRIES => if KernelIndex(k) then kernel[k] else 0)
  }

  function Protect(m: Machine, id: nat): Option<Machine>
    requires m.kpt in m.mem
  {
    var a := Alloc(m);
    if a.None? then None
    else
      var (m1, dir) := a.value;
      Some(m1.(mem := m1.mem[dir := SharedDir(m.mem[m.kpt])], spaces := m.spaces[id := Entry(dir, 5)]))
  }

  /** The user tables among some directory entries, in order. */
  function UserTables(entries: seq<Word>): seq<nat> {
    if entries == [] then []
    else (if P(entries[0]) && User(entries[0]) then [PageOf(entries[0])] else []) + UserTables(entries[1..])
  }

  /** The pages `unprotect` frees, in order: the user tables, then the directory. */
  function Torn(m: Machine, id: nat): seq<nat>
    requires Reachable(m, id)
  {
    UserTables(m.mem[PageOf(m.spaces[id])]) + [PageOf(m.spaces[id])]
  }

  function FreeAll(m: Machine, pages: seq<nat>): Machine
    requires forall i :: 0 <= i < |pages| ==> 0 < pages[i] < PAGES
    decreases |pages|
  {
    if pages == [] then m else FreeAll(Free(m, pages[0]), pages[1..])
  }

  // ----- what the hardware sees -----

  datatype Mapping = Mapping(frame: nat, writable: bool, user: bool)

  /** Address translation of a page: present at both levels, rights granted by both levels. */
  function Translate(m: Machine, ptr: Word, n: nat): Option<Mapping>
    requires n < PAGES
  {
    if PageOf(ptr) !in m.mem then None
    else
      var pde := m.mem[PageOf(ptr)][n / ENTRIES];
      if !P(pde) || PageOf(pde) !in m.mem then None
      else
        var pte := m.mem[PageOf(pde)][n % ENTRIES];
        if !P(pte) then None
        else Some(Mapping(PageOf(pte), Writable(pde) && Writable(pte), User(pde) && User(pte)))
  }

  /** The user mappings of an address space: virtual page to frame and write permission. */
  function View(m: Machine, ptr: Word): (v: map<nat, (nat, bool)>) {
    map n | 0x4_0000 <= n < 0x8_0000 && Translate(m, ptr, n).Some? ::
      (Translate(m, ptr, n).value.frame, Translate(m, ptr, n).value.writable)
  }
}
