/** Address-space creation, copy-on-write cloning, destruction (src/kernel/vmm.c) and the
    page-fault handler that splits shared pages (src/kernel/idt.c), as functions on physical
    memory, together with the invariant they keep. */
module CopyOnWrite {
  import opened Common
  import opened Frames
  import opened PageTables
  import opened FrameGraph

  // ---------------------------------------------------------------- the kernel's functions

  /** vmm_create_address_space: a zeroed PML4 with the kernel entry in slot 0. */
  function CreateSpace(m: Machine, kernel: Pte): (Option<nat>, Machine) {
    var (r, n) := NewTable(m);
    if r.None? then (None, n) else (r, SetEnt(n, r.value, 0, kernel))
  }

  /** The entry both sides of a clone end up with: writable becomes copy-on-write. */
  function Shared(e: Pte): Pte {
    if e.flags.writable then e.(flags := e.flags.(writable := false, cow := true, present := true))
    else e.(flags := e.flags.(present := true))
  }

  /** One leaf of vmm_clone_address_space: downgrade the source if it is writable, copy the
      entry, count one more reference. `frame` is the physical page the entry names. */
  function ShareLeaf(m: Machine, src: nat, dst: nat, i: nat, e: Pte): Machine {
    var m1 := if e.flags.writable then SetEnt(m, src, i, Shared(e)) else m;
    var m2 := SetEnt(m1, dst, i, Shared(e));
    m2.(pool := RefInc(m2.pool, e.frame))
  }

  /** The loop body of vmm_clone_address_space for slot i of a table at the given depth (0 for
      a PML4, 3 for a page table). None stands for a frame that could not be allocated, which
      the source does not check for. */
  function CloneEntry(m: Machine, depth: nat, src: nat, dst: nat, i: nat): Option<Machine>
    requires depth <= 3
    decreases 3 - depth, ENTRIES - i, 0, src
  {
    var e := Ent(m, src, i);
    if !e.flags.present then Some(m)
    else if depth == 3 then Some(ShareLeaf(m, src, dst, i, e))
    else if depth == 2 && e.flags.huge then
      Some(ShareLeaf(m, src, dst, i, e.(frame := e.frame / ENTRIES * ENTRIES)))
    else
      var (child, m1) := EnsureNext(m, dst, i);
      if child.None? then None else CloneFrom(m1, depth + 1, e.frame, child.value, 0)
  }

  /** One of its nested loops, from slot i on. */
  function CloneFrom(m: Machine, depth: nat, src: nat, dst: nat, i: nat): Option<Machine>
    requires depth <= 3
    decreases 3 - depth, ENTRIES - i, 1, src
  {
    if i >= ENTRIES then Some(m)
    else
      match CloneEntry(m, depth, src, dst, i)
      case None => None
      case Some(m1) => CloneFrom(m1, depth, src, dst, i + 1)
  }

  /** vmm_clone_address_space: the new root and the machine after it. */
  function Clone(m: Machine, kernel: Pte, src: nat): Option<(nat, Machine)> {
    var (r, m1) := CreateSpace(m, kernel);
    if r.None? then None
    else
      match CloneFrom(m1, 0, src, r.value, 1)
      case None => None
      case Some(n) => Some((r.value, n))
  }

  /** The loop body of vmm_destroy_address_space: whatever is below slot i, then the frame the
      slot names. Only the pool changes; the dead tables keep their bytes. */
  function DestroyEntry(m: Machine, depth: nat, t: nat, i: nat): Machine
    requires depth <= 3
    decreases 3 - depth, ENTRIES - i, 0, t
  {
    var e := Ent(m, t, i);
    if !e.flags.present then m
    else
      var m1 := if depth == 3 then m else DestroyFrom(m, depth + 1, e.frame, 0);
      m1.(pool := Free(m1.pool, e.frame))
  }

  function DestroyFrom(m: Machine, depth: nat, t: nat, i: nat): Machine
    requires depth <= 3
    decreases 3 - depth, ENTRIES - i, 1, t
  {
    if i >= ENTRIES then m else DestroyFrom(DestroyEntry(m, depth, t, i), depth, t, i + 1)
  }

  function Destroy(m: Machine, root: nat): Machine {
    var m1 := DestroyFrom(m, 0, root, 1);
    m1.(pool := Free(m1.pool, root))
  }

  datatype FaultResult = Resolved(m: Machine) | NotHandled | OutOfFrames

  /** The branch of handle_page_fault for a copy-on-write page: split it when others share the
      frame, or take over the last copy. OutOfFrames stands for an allocation result the source
      does not check. */
  function Reopen(m: Machine, root: nat, page: nat, shared: nat, flags: Flags): FaultResult {
    if RefOf(m.pool, shared) > 1 then
      var (f, pool) := Alloc(m.pool);
      if f.None? || shared !in m.mem then OutOfFrames
      else
        var m1 := Machine(m.mem[f.value := m.mem[shared]], pool);
        var m2 := Map(m1, root, page, f.value * PAGE_SIZE, flags);
        Resolved(m2.(pool := Free(m2.pool, shared)))
    else
      Resolved(Map(m, root, page, shared * PAGE_SIZE, flags))
  }

  /** handle_page_fault for a write at v; NotHandled is the path that kills the process. */
  function WriteFault(m: Machine, root: nat, v: nat): FaultResult {
    var flags := GetFlags(m, root, v);
    if !flags.cow then NotHandled
    else
      Reopen(m, root, v / PAGE_SIZE * PAGE_SIZE, GetPhys(m, root, v) / PAGE_SIZE,
             flags.(cow := false, writable := true))
  }

  datatype StoreResult = Stored(m: Machine) | Killed(m: Machine) | NoMemory

  function PokeByte(m: Machine, f: nat, off: nat, b: int): Machine {
    if f in m.mem && m.mem[f].Data? && off < |m.mem[f].bytes| then
      m.(mem := m.mem[f := Data(m.mem[f].bytes[off := b])])
    else m
  }

  /** The processor lets user code store at v. */
  predicate MayStore(m: Machine, root: nat, v: nat) {
    var r := Effective(m, root, Path(v));
    r.writable && r.user
  }

  function PokeAt(m: Machine, root: nat, v: nat, b: int): Machine {
    PokeByte(m, GetPhys(m, root, v) / PAGE_SIZE, v % PAGE_SIZE, b)
  }

  /** A user store of one byte at v: the processor writes where it has the right to, and
      otherwise faults and retries. */
  function Store(m: Machine, root: nat, v: nat, b: int): StoreResult {
    if MayStore(m, root, v) then Stored(PokeAt(m, root, v, b))
    else
      match WriteFault(m, root, v)
      case NotHandled => Killed(m)
      case OutOfFrames => NoMemory
      case Resolved(n) => Retried(n, root, v, b)
  }

  /** The store again after a resolved fault. A second fault is not resolved, as the first one
      cleared the copy-on-write bit. */
  function Retried(n: Machine, root: nat, v: nat, b: int): StoreResult {
    if MayStore(n, root, v) then Stored(PokeAt(n, root, v, b))
    else if WriteFault(n, root, v).NotHandled? then Killed(n) else NoMemory
  }

  /** Giving a space a fresh zeroed page, as the ELF loader does: allocate, map, clear. */
  function MapFresh(m: Machine, root: nat, v: nat, flags: Flags): Option<Machine> {
    var (f, pool) := Alloc(m.pool);
    if f.None? then None
    else
      var m1 := Map(m.(pool := pool), root, v, f.value * PAGE_SIZE, flags);
      Some(m1.(mem := m1.mem[f.value := ZeroPage()]))
  }

  function ZeroPage(): Content {
    Data(seq(PAGE_SIZE, _ => 0))
  }

  // ---------------------------------------------------------------- the invariant

  /** A managed frame's count is the number of its names; it is on the free stack exactly when
      it has none; tables are managed frames. */
  ghost predicate FrameBalanced(g: Graph, pool: Pool, managed: set<nat>, f: nat)
    requires |pool.refs| == MAX_FRAMES
  {
    && (f in managed ==> f < MAX_FRAMES && pool.refs[f] == Count(g, f))
    && (f in pool.free <==> f in managed && pool.refs[f] == 0)
    && (f in g.own ==> f in managed)
  }

  ghost predicate NamesManaged(g: Graph, managed: set<nat>, s: Slot)
    requires s in g.slots
  {
    g.slots[s].frame in managed
  }

  ghost predicate Balanced(g: Graph, pool: Pool, managed: set<nat>) {
    && Wf(pool)
    && (forall f {:trigger FrameBalanced(g, pool, managed, f)} :: FrameBalanced(g, pool, managed, f))
    && (forall s {:trigger NamesManaged(g, managed, s)} :: s in g.slots ==> NamesManaged(g, managed, s))
  }

  ghost predicate CoupledAt(m: Machine, g: Graph, s: Slot) {
    var e := Ent(m, s.table, s.index);
    && (s in g.slots <==> e.flags.present)
    && (s in g.slots ==> g.slots[s] == e)
    && (s !in g.slots ==> e == EMPTY)
  }

  ghost predicate KernelAt(m: Machine, g: Graph, r: nat) {
    IsSpace(g, r) ==> Ent(m, r, 0) == g.kernel
  }

  /** The tables in memory are the ones in the graph, and all spaces share the kernel entry. */
  ghost predicate Coupled(m: Machine, g: Graph) {
    && (forall t :: t in g.own ==> IsTable(m, t))
    && (forall s {:trigger CoupledAt(m, g, s)} :: UserSlot(g, s) ==> CoupledAt(m, g, s))
    && (forall r {:trigger KernelAt(m, g, r)} :: KernelAt(m, g, r))
  }

  ghost predicate IsPage(m: Machine, f: nat) {
    f in m.mem && m.mem[f].Data? && |m.mem[f].bytes| == PAGE_SIZE
  }

  /** Leaves name pages of data. */
  ghost predicate PagesOk(m: Machine, g: Graph) {
    forall s :: s in g.slots && IsLeaf(g, s) ==> IsPage(m, g.slots[s].frame)
  }

  ghost predicate Inv(m: Machine, g: Graph, managed: set<nat>) {
    && Tree(g) && Sole(g)
    && Balanced(g, m.pool, managed)
    && Coupled(m, g)
    && PagesOk(m, g)
  }

  // ---------------------------------------------------------------- counting steps

  lemma BalanceAlloc(g: Graph, h: Graph, pool: Pool, managed: set<nat>, f: nat)
    requires Balanced(g, pool, managed) && Alloc(pool).0 == Some(f)
    requires CountsDiffer(g, h, f, 1)
    requires forall t :: t in h.own && t !in g.own ==> t == f
    requires forall s :: s in h.slots ==> (s in g.slots && g.slots[s].frame == h.slots[s].frame) || h.slots[s].frame == f
    ensures Balanced(h, Alloc(pool).1, managed)
  {
    var pool' := Alloc(pool).1;
    var n := |pool.free| - 1;
    assert pool.free == pool.free[..n] + [f];
    assert FrameBalanced(g, pool, managed, f);
    forall x ensures FrameBalanced(h, pool', managed, x) {
      assert FrameBalanced(g, pool, managed, x);
      assert x in pool.free <==> x in pool.free[..n] || x == f;
    }
    forall s | s in h.slots ensures NamesManaged(h, managed, s) {
      if s in g.slots { assert NamesManaged(g, managed, s); }
    }
  }

  lemma BalanceInc(g: Graph, h: Graph, pool: Pool, managed: set<nat>, f: nat)
    requires Balanced(g, pool, managed) && f in managed && Count(g, f) > 0
    requires CountsDiffer(g, h, f, 1) && Count(h, f) < REF_LIMIT
    requires h.own == g.own
    requires forall s :: s in h.slots ==> (s in g.slots && g.slots[s].frame == h.slots[s].frame) || h.slots[s].frame == f
    ensures Balanced(h, RefInc(pool, f), managed)
  {
    assert FrameBalanced(g, pool, managed, f);
    forall x ensures FrameBalanced(h, RefInc(pool, f), managed, x) {
      assert FrameBalanced(g, pool, managed, x);
    }
    forall s | s in h.slots ensures NamesManaged(h, managed, s) {
      if s in g.slots { assert NamesManaged(g, managed, s); }
    }
  }

  lemma BalanceFree(g: Graph, h: Graph, pool: Pool, managed: set<nat>, f: nat)
    requires Balanced(g, pool, managed) && f in managed
    requires CountsDiffer(g, h, f, -1)
    requires forall t :: t in h.own ==> t in g.own
    requires forall s :: s in h.slots ==> s in g.slots && g.slots[s].frame == h.slots[s].frame
    ensures Balanced(h, Free(pool, f), managed)
  {
    assert FrameBalanced(g, pool, managed, f);
    forall x ensures FrameBalanced(h, Free(pool, f), managed, x) {
      assert FrameBalanced(g, pool, managed, x);
    }
    forall s | s in h.slots ensures NamesManaged(h, managed, s) {
      assert NamesManaged(g, managed, s);
    }
  }

  lemma FreeUnnamed(g: Graph, pool: Pool, managed: set<nat>, f: nat)
    requires Tree(g) && Balanced(g, pool, managed) && f in pool.free
    ensures Unnamed(g, f) && f in managed
  {
    assert FrameBalanced(g, pool, managed, f);
    CountZero(g, f);
  }
}
