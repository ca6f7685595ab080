/** Safety over whole runs: any sequence of operations that does not panic refines the same
    updates on one finite map per address space, and loses pages in one way only. */
module VmeRun {
  import opened Options
  import opened VmeModel
  import opened VmeInvariant
  import opened VmeMap
  import opened VmeSpace

  /** Besides the operations on address spaces, the kernel takes pages from the same allocator for
      its own use, to map them or not, and gives them back. */
  datatype Op =
    | Create(id: nat)
    | MapTo(id: nat, va: Word, pa: Word, prot: nat)
    | Destroy(id: nat)
    | Take
    | Give(page: Page)

  /** The machine and the pages that the kernel has taken. */
  datatype Kernel = Kernel(m: Machine, taken: set<nat>)

  /** User virtual page to frame and write permission, for every address space. */
  type Abstract = map<nat, map<nat, (nat, bool)>>

  /** A map after one page was unmapped or mapped. */
  function Updated(v: map<nat, (nat, bool)>, n: nat, pa: Word, prot: nat): map<nat, (nat, bool)> {
    if prot == 0 then v - {n} else v[n := (PageOf(pa), prot / 2 % 2 == 1)]
  }

  function AbstractStep(a: Abstract, op: Op): Abstract {
    match op
    case Create(id) => a[id := map[]]
    case MapTo(id, va, pa, prot) =>
      if id !in a then a
      else a[id := Updated(a[id], PageOf(va), pa, prot)]
    case Destroy(id) => a - {id}
    case _ => a
  }

  function AbstractRun(a: Abstract, ops: seq<Op>): Abstract
    decreases |ops|
  {
    if ops == [] then a else AbstractRun(AbstractStep(a, ops[0]), ops[1..])
  }

  function AbstractOf(m: Machine): Abstract {
    map id | id in m.spaces :: View(m, m.spaces[id])
  }

  /** What always holds between two operations. */
  ghost predicate KernelInv(s: Kernel, own: Owners) {
    Inv(s.m, own) && s.taken !! AllPages(s.m)
  }

  /** In use by page tables, in the allocator, or taken. */
  ghost function Pages(s: Kernel): set<nat> {
    AllPages(s.m) + s.taken
  }

  /** One operation on address spaces that does not panic takes m to m'. */
  ghost predicate SpaceSteps(m: Machine, op: Op, m': Machine) {
    match op
    case Create(id) => m.kpt in m.mem && Protect(m, id) == Some(m')
    case MapTo(id, va, pa, prot) => Reachable(m, id) && MapPage(m, id, va, pa, prot) == Some(m')
    case Destroy(id) => CanTear(m, id) && Unprotect(m, id) == m'
    case _ => false
  }

  /** One operation takes s to s'.  Only pages that were taken can be given back. */
  ghost predicate Steps(s: Kernel, op: Op, s': Kernel) {
    match op
    case Take => s.m.pool != [] && s' == Kernel(s.m.(pool := s.m.pool[1..]), s.taken + {s.m.pool[0]})
    case Give(p) => p in s.taken && s' == Kernel(Free(s.m, p), s.taken - {p})
    case _ => SpaceSteps(s.m, op, s'.m) && s'.taken == s.taken
  }

  /** A run: `states` holds the states after each operation. */
  ghost predicate Runs(s: Kernel, ops: seq<Op>, states: seq<Kernel>)
    decreases |ops|
  {
    |states| == |ops| &&
    (ops == [] || (Steps(s, ops[0], states[0]) && Runs(states[0], ops[1..], states[1..])))
  }

  ghost function Final(s: Kernel, states: seq<Kernel>): Kernel {
    if states == [] then s else states[|states| - 1]
  }

  lemma FinalRest(s: Kernel, states: seq<Kernel>)
    requires states != []
    ensures Final(states[0], states[1..]) == Final(s, states)
  {
  }

  // ----- single steps -----

  lemma ViewSame(m: Machine, m': Machine, ptr: Word)
    requires forall n :: UserVpn(n) ==> Translate(m', ptr, n) == Translate(m, ptr, n)
    ensures View(m', ptr) == View(m, ptr)
  {
  }

  lemma ViewOneChange(m: Machine, m': Machine, id: nat, n: nat, pa: Word, prot: nat)
    requires id in m.spaces && UserVpn(n) && OneChange(m, m', id, n, NewMapping(pa, prot))
    ensures View(m', m.spaces[id]) == Updated(View(m, m.spaces[id]), n, pa, prot)
    ensures forall i :: i in m.spaces && i != id ==> View(m', m.spaces[i]) == View(m, m.spaces[i])
  {
    forall i | i in m.spaces && i != id
      ensures View(m', m.spaces[i]) == View(m, m.spaces[i])
    {
      ViewSame(m, m', m.spaces[i]);
    }
    var a, b := View(m', m.spaces[id]), View(m, m.spaces[id]);
    var c := Updated(b, n, pa, prot);
    forall x
      ensures x in a <==> x in c
      ensures x in a && x in c ==> a[x] == c[x]
    {
      if UserVpn(x) && x != n {
        assert Translate(m', m.spaces[id], x) == Translate(m, m.spaces[id], x);
      }
    }
  }

  lemma MapStep(m: Machine, own: Owners, op: Op, m': Machine) returns (own': Owners)
    requires Inv(m, own) && op.MapTo? && SpaceSteps(m, op, m')
    ensures Inv(m', own') && AllPages(m') == AllPages(m)
    ensures LostPages(own') == LostPages(own)
    ensures AbstractOf(m') == AbstractStep(AbstractOf(m), op)
  {
    own' := MapPageCorrect(m, own, op.id, op.va, op.pa, op.prot);
    UserBlock(op.va);
    MapViews(m, op, m');
  }

  lemma MapViews(m: Machine, op: Op, m': Machine)
    requires op.MapTo? && op.id in m.spaces && UserVpn(PageOf(op.va))
    requires OneChange(m, m', op.id, PageOf(op.va), NewMapping(op.pa, op.prot))
    ensures AbstractOf(m') == AbstractStep(AbstractOf(m), op)
  {
    ViewOneChange(m, m', op.id, PageOf(op.va), op.pa, op.prot);
  }

  lemma CreateStep(m: Machine, own: Owners, id: nat, m': Machine)
    requires Inv(m, own) && SpaceSteps(m, Create(id), m')
    ensures m.pool != [] && Inv(m', NewOwners(own, id, m.pool[0])) && AllPages(m') == AllPages(m)
    ensures LostPages(NewOwners(own, id, m.pool[0])) == LostPages(own) + Owned(own, id)
    ensures AbstractOf(m') == AbstractStep(AbstractOf(m), Create(id))
  {
    ProtectInv(m, own, id);
    NewOwnersLost(own, id, m.pool[0]);
    forall i | i in m'.spaces
      ensures View(m', m'.spaces[i]) == if i == id then map[] else View(m, m.spaces[i])
    {
      CreateView(m, own, id, m', i);
    }
    SpaceCreated(m, id, m');
  }

  lemma SpaceCreated(m: Machine, id: nat, m': Machine)
    requires m'.spaces.Keys == m.spaces.Keys + {id}
    requires forall i :: i in m'.spaces ==> View(m', m'.spaces[i]) == if i == id then map[] else View(m, m.spaces[i])
    ensures AbstractOf(m') == AbstractStep(AbstractOf(m), Create(id))
  {
  }

  lemma CreateView(m: Machine, own: Owners, id: nat, m': Machine, i: nat)
    requires Inv(m, own) && SpaceSteps(m, Create(id), m') && i in m'.spaces
    ensures View(m', m'.spaces[i]) == if i == id then map[] else View(m, m.spaces[i])
  {
    forall n | UserVpn(n)
      ensures Translate(m', m'.spaces[i], n) == if i == id then None else Translate(m, m.spaces[i], n)
    {
      ProtectTranslate(m, own, id, i, n);
    }
    if i != id {
      ViewSame(m, m', m.spaces[i]);
    }
  }

  lemma DestroyView(m: Machine, own: Owners, id: nat, i: nat)
    requires Inv(m, own) && CanTear(m, id) && i in m.spaces && i != id
    ensures View(Unprotect(m, id), m.spaces[i]) == View(m, m.spaces[i])
  {
    forall n | UserVpn(n)
      ensures Translate(Unprotect(m, id), m.spaces[i], n) == Translate(m, m.spaces[i], n)
    {
      UnprotectTranslate(m, own, id, i, n);
    }
    ViewSame(m, Unprotect(m, id), m.spaces[i]);
  }

  lemma DestroyStep(m: Machine, own: Owners, id: nat, m': Machine)
    requires Inv(m, own) && SpaceSteps(m, Destroy(id), m')
    ensures Inv(m', own - Owned(own, id)) && AllPages(m') == AllPages(m)
    ensures LostPages(own - Owned(own, id)) == LostPages(own)
    ensures AbstractOf(m') == AbstractStep(AbstractOf(m), Destroy(id))
  {
    UnprotectInv(m, own, id);
    DestroyViews(m, own, id, m');
  }

  lemma DestroyViews(m: Machine, own: Owners, id: nat, m': Machine)
    requires Inv(m, own) && CanTear(m, id) && Unprotect(m, id) == m'
    ensures AllPages(m') == AllPages(m)
    ensures AbstractOf(m') == AbstractStep(AbstractOf(m), Destroy(id))
  {
    UnprotectCorrect(m, own, id);
    forall i | i in m'.spaces
      ensures View(m', m'.spaces[i]) == View(m, m.spaces[i])
    {
      DestroyView(m, own, id, i);
    }
    SpaceDropped(m, id, m');
  }

  lemma SpaceDropped(m: Machine, id: nat, m': Machine)
    requires m'.spaces == m.spaces - {id}
    requires forall i :: i in m'.spaces ==> View(m', m'.spaces[i]) == View(m, m.spaces[i])
    ensures AbstractOf(m') == AbstractStep(AbstractOf(m), Destroy(id))
  {
  }

  /** Taking a page, or giving one back, concerns neither tables nor translation. */
  lemma PoolStep(s: Kernel, own: Owners, op: Op, s': Kernel)
    requires KernelInv(s, own) && (op.Take? || op.Give?) && Steps(s, op, s')
    ensures KernelInv(s', own) && Pages(s') == Pages(s)
    ensures AbstractOf(s'.m) == AbstractOf(s.m)
  {
    if op.Take? {
      assert s.m.pool == [s.m.pool[0]] + s'.m.pool;
    } else {
      assert op.page !in s.m.mem;
      assert s'.m.mem == s.m.mem;
    }
    SameTablesInv(s.m, s'.m, own);
  }

  lemma SameTablesInv(m: Machine, m': Machine, own: Owners)
    requires Inv(m, own) && m' == m.(pool := m'.pool) && PoolOk(m')
    ensures Inv(m', own) && AbstractOf(m') == AbstractOf(m)
  {
    KernelKept(m, own, m', own);
    forall i | i in m.spaces
      ensures SpaceOk(m', own, i) && View(m', m.spaces[i]) == View(m, m.spaces[i])
    {
      assert SpaceOk(m, own, i);
      SpaceKept(m, own, m', own, i);
      ViewSame(m, m', m.spaces[i]);
    }
    forall p | p in own
      ensures Rooted(m', own, p)
    {
      assert Rooted(m, own, p);
    }
  }

  lemma SpaceStep(m: Machine, own: Owners, op: Op, m': Machine) returns (own': Owners)
    requires Inv(m, own) && SpaceSteps(m, op, m')
    ensures Inv(m', own') && AllPages(m') == AllPages(m)
    ensures AbstractOf(m') == AbstractStep(AbstractOf(m), op)
    ensures LostPages(own') == LostPages(own) + if op.Create? then Owned(own, op.id) else {}
  {
    match op
    case Create(id) =>
      CreateStep(m, own, id, m');
      own' := NewOwners(own, id, m.pool[0]);
    case MapTo(_, _, _, _) =>
      own' := MapStep(m, own, op, m');
    case Destroy(id) =>
      DestroyStep(m, own, id, m');
      own' := own - Owned(own, id);
  }

  /** Pages are lost by one kind of step only: creating a space that exists, which loses its pages. */
  lemma OneStep(s: Kernel, own: Owners, op: Op, s': Kernel) returns (own': Owners)
    requires KernelInv(s, own) && Steps(s, op, s')
    ensures KernelInv(s', own') && Pages(s') == Pages(s)
    ensures AbstractOf(s'.m) == AbstractStep(AbstractOf(s.m), op)
    ensures LostPages(own') == LostPages(own) + if op.Create? then Owned(own, op.id) else {}
  {
    if op.Take? || op.Give? {
      PoolStep(s, own, op, s');
      own' := own;
    } else {
      own' := SpaceStep(s.m, own, op, s'.m);
    }
  }

  // ----- runs -----

  /** No operation of the run creates a space that exists. */
  ghost predicate FreshCreates(s: Kernel, ops: seq<Op>, states: seq<Kernel>)
    requires |states| == |ops|
    decreases |ops|
  {
    ops == [] || ((ops[0].Create? ==> ops[0].id !in s.m.spaces) && FreshCreates(states[0], ops[1..], states[1..]))
  }

  /** A space that exists owns its directory at least, which is not lost yet. */
  lemma SomethingOwned(m: Machine, own: Owners, id: nat)
    requires Inv(m, own) && id in m.spaces
    ensures Owned(own, id) != {} && Owned(own, id) !! LostPages(own)
  {
    assert SpaceOk(m, own, id);
    assert DirOf(m, id) in Owned(own, id);
  }

  /** Whatever operations run, in whatever order and on whatever address spaces: the hardware sees
      exactly the abstract maps, the ownership invariant holds, and the pages in use, in the pool
      and taken are the same ones together.  A page is lost if and only if some operation creates
      a space that exists. */
  lemma {:induction false} RunRefines(s: Kernel, own: Owners, ops: seq<Op>, states: seq<Kernel>)
    returns (own': Owners)
    requires KernelInv(s, own) && Runs(s, ops, states)
    ensures KernelInv(Final(s, states), own')
    ensures AbstractOf(Final(s, states).m) == AbstractRun(AbstractOf(s.m), ops)
    ensures Pages(Final(s, states)) == Pages(s)
    ensures LostPages(own) <= LostPages(own')
    ensures FreshCreates(s, ops, states) <==> LostPages(own') == LostPages(own)
    decreases |ops|
  {
    if ops == [] {
      own' := own;
    } else {
      if ops[0].Create? {
        if ops[0].id in s.m.spaces {
          SomethingOwned(s.m, own, ops[0].id);
        } else {
          NothingOwned(s.m, own, ops[0].id);
        }
      }
      var own1 := OneStep(s, own, ops[0], states[0]);
      own' := RunRefines(states[0], own1, ops[1..], states[1..]);
      FinalRest(s, states);
    }
  }

  /** The pages in use that belong to the kernel. */
  ghost function KernelPages(m: Machine): set<nat>
    requires m.kpt in m.mem
  {
    {m.kpt} + (set k | 0 <= k < ENTRIES && KernelIndex(k) :: PageOf(m.mem[m.kpt][k]))
  }

  /** With no address space left, the kernel's own pages and the lost ones are all that is in use. */
  lemma NothingLeaks(m: Machine, own: Owners)
    requires Inv(m, own) && m.spaces == map[]
    ensures m.mem.Keys == KernelPages(m) + LostPages(own)
  {
    forall p | p in m.mem
      ensures p in KernelPages(m) + LostPages(own)
    {
      assert Rooted(m, own, p);
    }
    forall k | 0 <= k < ENTRIES && KernelIndex(k)
      ensures PageOf(m.mem[m.kpt][k]) in m.mem
    {
      assert KernelEntryOk(m, own, k);
    }
  }

  // ----- mapped frames -----

  /** No space has a frame of this set mapped. */
  ghost predicate Outside(a: Abstract, pages: set<nat>) {
    forall i, n :: i in a && n in a[i] ==> a[i][n].0 !in pages
  }

  /** What a kernel must do to keep its mappings safe: map only pages that it has taken, or that the
      allocator never had, and give back no page that some space has mapped. */
  ghost predicate CarefulStep(s: Kernel, op: Op) {
    match op
    case MapTo(_, _, pa, prot) => prot != 0 ==> PageOf(pa) !in AllPages(s.m)
    case Give(p) => Outside(AbstractOf(s.m), {p})
    case _ => true
  }

  ghost predicate Careful(s: Kernel, ops: seq<Op>, states: seq<Kernel>)
    requires |states| == |ops|
    decreases |ops|
  {
    ops == [] || (CarefulStep(s, ops[0]) && Careful(states[0], ops[1..], states[1..]))
  }

  /** No mapped frame is a page table or free for allocation. */
  ghost predicate FramesSafe(s: Kernel) {
    Outside(AbstractOf(s.m), AllPages(s.m))
  }

  /** An update puts no frame into a map but the one it maps. */
  lemma UpdateOutside(a: Abstract, op: Op, pages: set<nat>)
    requires Outside(a, pages) && (op.MapTo? && op.prot != 0 ==> PageOf(op.pa) !in pages)
    ensures Outside(AbstractStep(a, op), pages)
  {
  }

  lemma CarefulStepSafe(s: Kernel, own: Owners, op: Op, s': Kernel)
    requires KernelInv(s, own) && Steps(s, op, s') && FramesSafe(s) && CarefulStep(s, op)
    ensures FramesSafe(s')
  {
    if op.Take? || op.Give? {
      PoolStep(s, own, op, s');
      assert AllPages(s'.m) <= AllPages(s.m) + if op.Give? then {op.page} else {};
    } else {
      var own' := SpaceStep(s.m, own, op, s'.m);
      UpdateOutside(AbstractOf(s.m), op, AllPages(s.m));
    }
  }

  lemma {:induction false} CarefulRunSafe(s: Kernel, own: Owners, ops: seq<Op>, states: seq<Kernel>)
    requires KernelInv(s, own) && Runs(s, ops, states)
    requires FramesSafe(s) && Careful(s, ops, states)
    ensures FramesSafe(Final(s, states))
    decreases |ops|
  {
    if ops != [] {
      CarefulStepSafe(s, own, ops[0], states[0]);
      var own1 := OneStep(s, own, ops[0], states[0]);
      CarefulRunSafe(states[0], own1, ops[1..], states[1..]);
      FinalRest(s, states);
    }
  }

  /** In every state of every careful run, no mapped frame is in use as a table or free for
      allocation, and destroying any space frees none. */
  lemma NoMappedFrameFreed(s: Kernel, own: Owners, ops: seq<Op>, states: seq<Kernel>, id: nat, i: nat, n: nat)
    requires KernelInv(s, own) && Runs(s, ops, states)
    requires FramesSafe(s) && Careful(s, ops, states)
    requires var f := Final(s, states).m;
             Reachable(f, id) && i in f.spaces && UserVpn(n) && Translate(f, f.spaces[i], n).Some?
    ensures var f := Final(s, states).m;
            var frame := Translate(f, f.spaces[i], n).value.frame;
            frame !in AllPages(f) && frame !in Torn(f, id)
  {
    var f := Final(s, states).m;
    var own' := RunRefines(s, own, ops, states);
    CarefulRunSafe(s, own, ops, states);
    assert n in AbstractOf(f)[i] && AbstractOf(f)[i][n].0 == Translate(f, f.spaces[i], n).value.frame;
    TornIsOwned(f, own', id);
  }
}
