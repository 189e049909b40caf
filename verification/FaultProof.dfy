/** handle_page_fault: a store through a copy-on-write page is private to the storing space. */
module FaultProof {
  import opened Common
  import opened Frames
  import opened PageTables
  import opened FrameGraph
  import opened CopyOnWrite
  import opened CowSteps

  /** A page as user code sees it. */
  datatype Page = Page(bytes: seq<int>, access: Access)

  function PageAt(m: Machine, g: Graph, x: nat, p: seq<nat>): Option<Page>
    requires |p| == 4
  {
    match Look(g, x, p)
    case None => None
    case Some(ref) =>
      if ref.frame in m.mem && m.mem[ref.frame].Data? then Some(Page(m.mem[ref.frame].bytes, ref.access)) else None
  }

  /** The kernel's own walk of memory ends at the leaf slot the graph knows. */
  ghost predicate WalksTo(m: Machine, root: nat, p: seq<nat>, s: Slot)
    requires |p| == 4
  {
    && Next(m, root, p[0]).Some?
    && var a := Next(m, root, p[0]).value;
    && Next(m, a, p[1]).Some?
    && var b := Next(m, a, p[1]).value;
    && !Ent(m, b, p[2]).flags.huge
    && Grants(Ent(m, root, p[0]).flags) && Grants(Ent(m, a, p[1]).flags) && Grants(Ent(m, b, p[2]).flags)
    && Next(m, b, p[2]) == Some(s.table)
    && s.index == p[3]
  }

  lemma {:induction false} StepDown(m: Machine, g: Graph, t: nat, q: seq<nat>)
    requires Tree(g) && Coupled(m, g) && Descent(g, t, q)
    ensures Next(m, t, q[0]).Some? <==> Slot(t, q[0]) in g.slots
    ensures Slot(t, q[0]) !in g.slots ==> Ent(m, t, q[0]) == EMPTY && LookFrom(g, t, q) == None
    ensures Slot(t, q[0]) in g.slots ==>
      && Ent(m, t, q[0]) == g.slots[Slot(t, q[0])] && !Ent(m, t, q[0]).flags.huge
      && (|q| > 1 ==> Grants(Ent(m, t, q[0]).flags) && Descent(g, Ent(m, t, q[0]).frame, q[1..])
                      && LookFrom(g, t, q) == LookFrom(g, Ent(m, t, q[0]).frame, q[1..]))
  {
    var s := Slot(t, q[0]);
    assert UserSlot(g, s) && CoupledAt(m, g, s);
    if s in g.slots { assert EntryOk(g, s); }
  }

  lemma WalkFound(m: Machine, g: Graph, root: nat, p: seq<nat>) returns (s: Slot)
    requires Tree(g) && Coupled(m, g) && IsSpace(g, root) && UserPath(p) && Look(g, root, p).Some?
    ensures s in g.slots && IsLeaf(g, s) && At(g, s, root, p) && WalksTo(m, root, p, s)
    ensures Look(g, root, p) == Some(PageRef(g.slots[s].frame, AccessOf(g.slots[s].flags)))
    ensures Ent(m, s.table, s.index) == g.slots[s]
  {
    assert LabelOk(g, root);
    s := LookSlot(g, root, p);
    StepDown(m, g, root, p);
    var a := Ent(m, root, p[0]).frame;
    StepDown(m, g, a, p[1..]);
    var b := Ent(m, a, p[1]).frame;
    assert p[1..][1..] == p[2..];
    StepDown(m, g, b, p[2..]);
    var c := Ent(m, b, p[2]).frame;
    assert p[2..][1..] == p[3..];
    StepDown(m, g, c, p[3..]);
    assert EntryOk(g, Slot(root, p[0])) && EntryOk(g, Slot(a, p[1])) && EntryOk(g, Slot(b, p[2]));
    assert EntryOk(g, s);
    assert g.own[c].path == [p[0], p[1], p[2]];
    assert g.own[root].path + p == p;
    assert (g.own[s.table].path + [s.index])[..3] == g.own[s.table].path;
    PlaceUnique(g, c, s.table);
  }

  lemma {:induction false} EffectiveUnrolled(m: Machine, root: nat, p: seq<nat>)
    requires |p| == 4 && Next(m, root, p[0]).Some?
    requires Next(m, Next(m, root, p[0]).value, p[1]).Some?
    requires var b := Next(m, Next(m, root, p[0]).value, p[1]).value; Next(m, b, p[2]).Some? && !Ent(m, b, p[2]).flags.huge
    ensures var e1 := Ent(m, root, p[0]).flags;
      var e2 := Ent(m, Next(m, root, p[0]).value, p[1]).flags;
      var b := Next(m, Next(m, root, p[0]).value, p[1]).value;
      var e3, e4 := Ent(m, b, p[2]).flags, Ent(m, Next(m, b, p[2]).value, p[3]).flags;
      Effective(m, root, p) ==
        Rights(e1.writable && e2.writable && e3.writable && e4.present && e4.writable,
               e1.user && e2.user && e3.user && e4.present && e4.user)
  {
    var a := Ent(m, root, p[0]).frame;
    var b := Ent(m, a, p[1]).frame;
    var c := Ent(m, b, p[2]).frame;
    assert p[1..][1..] == p[2..] && p[2..][1..] == p[3..];
    assert Effective(m, root, p) == Both(Ent(m, root, p[0]).flags, Effective(m, a, p[1..]));
    assert Effective(m, a, p[1..]) == Both(Ent(m, a, p[1]).flags, Effective(m, b, p[2..]));
    assert Effective(m, b, p[2..]) == Both(Ent(m, b, p[2]).flags, Effective(m, c, p[3..]));
  }

  lemma {:induction false} WalkMissed(m: Machine, g: Graph, root: nat, v: nat)
    requires Tree(g) && Coupled(m, g) && IsSpace(g, root) && UserPath(Path(v)) && Look(g, root, Path(v)).None?
    ensures GetFlags(m, root, v) == EMPTY.flags
    ensures Effective(m, root, Path(v)) == Rights(false, false)
  {
    var p := Path(v);
    assert LabelOk(g, root);
    StepDown(m, g, root, p);
    if Next(m, root, p[0]).Some? {
      var a := Ent(m, root, p[0]).frame;
      StepDown(m, g, a, p[1..]);
      if Next(m, a, p[1]).Some? {
        var b := Ent(m, a, p[1]).frame;
        assert p[1..][1..] == p[2..];
        StepDown(m, g, b, p[2..]);
        if Next(m, b, p[2]).Some? {
          assert p[2..][1..] == p[3..];
          StepDown(m, g, Ent(m, b, p[2]).frame, p[3..]);
          EffectiveUnrolled(m, root, p);
        } else {
          assert Effective(m, b, p[2..]) == Rights(false, false);
          assert Effective(m, a, p[1..]) == Both(Ent(m, a, p[1]).flags, Effective(m, b, p[2..]));
        }
      }
    }
  }

  /** With the walk in place the kernel's functions act on the leaf slot. */
  lemma {:induction false} WalkUsed(m: Machine, root: nat, v: nat, s: Slot, phys: nat, flags: Flags)
    requires WalksTo(m, root, Path(v), s) && !flags.huge
    ensures GetFlags(m, root, v) == Ent(m, s.table, s.index).flags
    ensures GetPhys(m, root, v) == Ent(m, s.table, s.index).frame * PAGE_SIZE + v % PAGE_SIZE
    ensures Map(m, root, v, phys, flags) ==
      SetEnt(m, s.table, s.index, Pte(phys / PAGE_SIZE, flags.(present := true)))
    ensures var e := Ent(m, s.table, s.index).flags;
      Effective(m, root, Path(v)) == Rights(e.present && e.writable, e.present && e.user)
  {
    EffectiveUnrolled(m, root, Path(v));
  }

  lemma SamePage(v: nat)
    ensures Path(v / PAGE_SIZE * PAGE_SIZE) == Path(v)
  {
    assert v / PAGE_SIZE * PAGE_SIZE / PAGE_SIZE == v / PAGE_SIZE;
    SamePath(v, v / PAGE_SIZE * PAGE_SIZE);
  }

  // ---------------------------------------------------------------- splitting and reclaiming

  /** One name moves from frame f to the fresh frame x. */
  lemma BalanceSwap(g: Graph, h: Graph, pool: Pool, managed: set<nat>, s: Slot, x: nat)
    requires Tree(g) && Balanced(g, pool, managed) && s in g.slots && g.slots[s].frame in managed
    requires RefOf(pool, g.slots[s].frame) > 1 && Alloc(pool).0 == Some(x)
    requires h.own == g.own && s in h.slots && h.slots == g.slots[s := h.slots[s]] && h.slots[s].frame == x
    ensures Balanced(h, Free(Alloc(pool).1, g.slots[s].frame), managed)
  {
    var f := g.slots[s].frame;
    FreeUnnamed(g, pool, managed, x);
    assert FrameBalanced(g, pool, managed, f);
    var mid := CutLeaf(g, s);
    NamesCut(g, mid, s);
    NamesAdd(mid, h, s, h.slots[s]);
    var n := |pool.free| - 1;
    assert pool.free == pool.free[..n] + [x];
    var pool' := Free(Alloc(pool).1, f);
    assert FrameBalanced(g, pool, managed, x);
    forall y ensures FrameBalanced(h, pool', managed, y) {
      assert FrameBalanced(g, pool, managed, y);
      assert y in pool.free <==> y in pool.free[..n] || y == x;
    }
    forall y | y in h.slots ensures NamesManaged(h, managed, y) {
      if y != s { assert NamesManaged(g, managed, y); }
    }
  }

  lemma BalanceSame(g: Graph, h: Graph, pool: Pool, managed: set<nat>)
    requires Balanced(g, pool, managed) && h.own == g.own
    requires h.slots.Keys == g.slots.Keys && forall s :: s in g.slots ==> h.slots[s].frame == g.slots[s].frame
    ensures Balanced(h, pool, managed)
  {
    forall f ensures FrameBalanced(h, pool, managed, f) {
      assert FrameBalanced(g, pool, managed, f);
      assert Names(h, f) == Names(g, f);
    }
    forall s | s in h.slots ensures NamesManaged(h, managed, s) {
      assert NamesManaged(g, managed, s);
    }
  }

  /** Rewriting a leaf so that its frame has no other name keeps the space private. */
  lemma SoleLeaf(g: Graph, h: Graph, s: Slot)
    requires Sole(g) && IsLeaf(g, s) && h.own == g.own && s in h.slots && h.slots == g.slots[s := h.slots[s]]
    requires forall x :: x in g.slots && x != s ==> g.slots[x].frame != h.slots[s].frame
    ensures Sole(h)
  {
    forall x, y | x in h.slots && IsLeaf(h, x) && h.slots[x].flags.writable && SameFrame(h, x, y) ensures y == x {
      if x != s { assert IsLeaf(g, x) && (y != s ==> SameFrame(g, x, y)); }
    }
  }

  lemma LeafCoupled(m: Machine, n: Machine, g: Graph, s: Slot, e: Pte)
    requires Tree(g) && Coupled(m, g) && UserSlot(g, s) && e.flags.present
    requires forall t :: t in g.own ==> t in n.mem && n.mem[t] == (if t == s.table then Table(m.mem[t].entries[s.index := e]) else m.mem[t])
    ensures Coupled(n, PutLeaf(g, s, e))
  {
    forall x | UserSlot(PutLeaf(g, s, e), x) ensures CoupledAt(n, PutLeaf(g, s, e), x) {
      assert UserSlot(g, x) && CoupledAt(m, g, x);
    }
    forall r ensures KernelAt(n, PutLeaf(g, s, e), r) {
      assert KernelAt(m, g, r);
    }
  }

  /** The entry a resolved fault leaves behind, and the frame it names. */
  function Opened(e: Pte, frame: nat): Pte {
    Pte(frame, e.flags.(cow := false, writable := true, present := true))
  }

  /** The fault has been resolved: slot s now names `frame` writably, with the old bytes. */
  ghost predicate Resolves(m: Machine, g: Graph, s: Slot, n: Machine, frame: nat)
    requires s in g.slots
  {
    && (forall x :: x in g.slots && x != s ==> g.slots[x].frame != frame)
    && g.slots[s].frame in m.mem && frame in n.mem && n.mem[frame] == m.mem[g.slots[s].frame]
    && KeepsPages(m, n, g)
  }

  lemma SplitStep(m: Machine, g: Graph, managed: set<nat>, s: Slot, f: nat, pool: Pool, n: Machine)
    requires Inv(m, g, managed) && s in g.slots && IsLeaf(g, s)
    requires RefOf(m.pool, g.slots[s].frame) > 1 && Alloc(m.pool) == (Some(f), pool) && g.slots[s].frame in m.mem
    requires var m1 := Machine(m.mem[f := m.mem[g.slots[s].frame]], pool);
      n == SetEnt(m1, s.table, s.index, Opened(g.slots[s], f)).(pool := Free(pool, g.slots[s].frame))
    ensures Inv(n, PutLeaf(g, s, Opened(g.slots[s], f)), managed) && Resolves(m, g, s, n, f)
  {
    var e := Opened(g.slots[s], f);
    var h := PutLeaf(g, s, e);
    LeafFrameIsPage(m, g, managed, s);
    assert EntryOk(g, s);
    FreeUnnamed(g, m.pool, managed, f);
    forall x | x in g.slots ensures g.slots[x].frame != f {
      assert x !in Names(g, f);
    }
    LeafTree(g, h, s);
    SoleLeaf(g, h, s);
    BalanceSwap(g, h, m.pool, managed, s, f);
    LeafCoupled(m, n, g, s, e);
    SplitPages(m, g, managed, s, f, n);
  }

  lemma SplitPages(m: Machine, g: Graph, managed: set<nat>, s: Slot, f: nat, n: Machine)
    requires Inv(m, g, managed) && s in g.slots && IsLeaf(g, s) && Unnamed(g, f) && g.slots[s].frame in m.mem
    requires forall x :: x in m.mem && x != f && x != s.table ==> x in n.mem && n.mem[x] == m.mem[x]
    requires f in n.mem && n.mem[f] == m.mem[g.slots[s].frame]
    ensures KeepsPages(m, n, g) && PagesOk(n, PutLeaf(g, s, Opened(g.slots[s], f)))
  {
    var h := PutLeaf(g, s, Opened(g.slots[s], f));
    LeafFrameIsPage(m, g, managed, s);
    forall x | x in g.slots && IsLeaf(g, x)
      ensures g.slots[x].frame in m.mem && g.slots[x].frame in n.mem && n.mem[g.slots[x].frame] == m.mem[g.slots[x].frame]
      ensures IsPage(n, g.slots[x].frame)
    {
      LeafFrameIsPage(m, g, managed, x);
      assert EntryOk(g, s) && x !in Names(g, f);
    }
    forall x | x in h.slots && IsLeaf(h, x) ensures IsPage(n, h.slots[x].frame) {
      if x != s { assert IsLeaf(g, x); }
    }
  }

  lemma ReclaimStep(m: Machine, g: Graph, managed: set<nat>, s: Slot, n: Machine)
    requires Inv(m, g, managed) && s in g.slots && IsLeaf(g, s)
    requires RefOf(m.pool, g.slots[s].frame) <= 1
    requires n == SetEnt(m, s.table, s.index, Opened(g.slots[s], g.slots[s].frame))
    ensures Inv(n, PutLeaf(g, s, Opened(g.slots[s], g.slots[s].frame)), managed)
    ensures Resolves(m, g, s, n, g.slots[s].frame)
  {
    var f := g.slots[s].frame;
    var e := Opened(g.slots[s], f);
    var h := PutLeaf(g, s, e);
    LeafFrameIsPage(m, g, managed, s);
    assert EntryOk(g, s) && FrameBalanced(g, m.pool, managed, f);
    OnlyName(g, s);
    LeafTree(g, h, s);
    SoleLeaf(g, h, s);
    BalanceSame(g, h, m.pool, managed);
    LeafCoupled(m, n, g, s, e);
    forall x | x in g.slots && IsLeaf(g, x)
      ensures g.slots[x].frame in m.mem && g.slots[x].frame in n.mem && n.mem[g.slots[x].frame] == m.mem[g.slots[x].frame]
      ensures IsPage(n, g.slots[x].frame)
    {
      LeafFrameIsPage(m, g, managed, x);
    }
    forall x | x in h.slots && IsLeaf(h, x) ensures IsPage(n, h.slots[x].frame) {
      if x != s { assert IsLeaf(g, x); }
    }
  }

  lemma OnlyName(g: Graph, s: Slot)
    requires s in g.slots && Count(g, g.slots[s].frame) <= 1
    ensures forall x :: x in g.slots && x != s ==> g.slots[x].frame != g.slots[s].frame
  {
    var f := g.slots[s].frame;
    forall x | x in g.slots && g.slots[x].frame == f ensures x == s {
      SubsetSize({s, x}, Names(g, f));
    }
  }

  // ---------------------------------------------------------------- what a store does

  ghost predicate SamePages(m: Machine, g: Graph, n: Machine, h: Graph) {
    && h.kernel == g.kernel
    && (forall x :: IsSpace(h, x) <==> IsSpace(g, x))
    && (forall x, q :: IsSpace(g, x) && UserPath(q) ==> PageAt(n, h, x, q) == PageAt(m, g, x, q))
  }

  /** Resolving a fault is invisible to user code. */
  lemma ResolveInvisible(m: Machine, g: Graph, managed: set<nat>, s: Slot, n: Machine, frame: nat)
    requires Inv(m, g, managed) && s in g.slots && IsLeaf(g, s) && MayWrite(g.slots[s].flags)
    requires Resolves(m, g, s, n, frame)
    ensures SamePages(m, g, n, PutLeaf(g, s, Opened(g.slots[s], frame)))
  {
    var h := PutLeaf(g, s, Opened(g.slots[s], frame));
    assert EntryOk(g, s);
    LeafLooks(g, h, s);
    forall x, q | IsSpace(g, x) && UserPath(q) ensures PageAt(n, h, x, q) == PageAt(m, g, x, q) {
      assert LabelOk(g, x) && g.own[x].path + q == q;
      if Look(g, x, q).Some? {
        var y := LookSlot(g, x, q);
        assert g.slots[y].frame in m.mem && n.mem[g.slots[y].frame] == m.mem[g.slots[y].frame];
        if At(g, s, x, q) { SameSlot(g, s, y); }
      } else if At(g, s, x, q) {
        LookVia(g, s.table, [s.index]);
      }
    }
  }

  lemma SameSlot(g: Graph, s: Slot, y: Slot)
    requires Tree(g) && IsLeaf(g, s) && IsLeaf(g, y) && g.own[s.table].root == g.own[y.table].root
    requires g.own[s.table].path + [s.index] == g.own[y.table].path + [y.index]
    ensures s == y
  {
    var a, b := g.own[s.table].path + [s.index], g.own[y.table].path + [y.index];
    assert a[..3] == g.own[s.table].path && b[..3] == g.own[y.table].path && a[3] == s.index && b[3] == y.index;
    PlaceUnique(g, s.table, y.table);
  }

  function Poked(page: Page, off: nat, b: int): Page {
    if off < |page.bytes| then page.(bytes := page.bytes[off := b]) else page
  }

  /** Exactly one byte of one page of one space has changed. */
  ghost predicate ByteStored(m: Machine, g: Graph, n: Machine, h: Graph, root: nat, p: seq<nat>, off: nat, b: int)
    requires |p| == 4
  {
    && h.kernel == g.kernel && (forall x :: IsSpace(h, x) <==> IsSpace(g, x))
    && PageAt(m, g, root, p).Some? && off < |PageAt(m, g, root, p).value.bytes|
    && (forall x, q :: IsSpace(g, x) && UserPath(q) ==>
          PageAt(n, h, x, q) ==
          if x == root && q == p then Some(Poked(PageAt(m, g, root, p).value, off, b)) else PageAt(m, g, x, q))
  }

  /** A store through a writable leaf. */
  lemma PokeStep(m: Machine, g: Graph, managed: set<nat>, root: nat, p: seq<nat>, s: Slot, off: nat, b: int)
    requires Inv(m, g, managed) && IsSpace(g, root) && UserPath(p) && off < PAGE_SIZE
    requires s in g.slots && IsLeaf(g, s) && At(g, s, root, p) && g.slots[s].flags.writable
    ensures Inv(PokeByte(m, g.slots[s].frame, off, b), g, managed)
    ensures ByteStored(m, g, PokeByte(m, g.slots[s].frame, off, b), g, root, p, off, b)
  {
    var f := g.slots[s].frame;
    var n := PokeByte(m, f, off, b);
    LeafFrameIsPage(m, g, managed, s);
    forall x | UserSlot(g, x) ensures CoupledAt(n, g, x) {
      assert CoupledAt(m, g, x);
    }
    forall r ensures KernelAt(n, g, r) {
      assert KernelAt(m, g, r);
    }
    forall x | x in g.slots && IsLeaf(g, x) ensures IsPage(n, g.slots[x].frame) {
      LeafFrameIsPage(m, g, managed, x);
    }
    LookVia(g, s.table, [s.index]);
    forall x, q | IsSpace(g, x) && UserPath(q)
      ensures PageAt(n, g, x, q) ==
        if x == root && q == p then Some(Poked(PageAt(m, g, root, p).value, off, b)) else PageAt(m, g, x, q)
    {
      if Look(g, x, q).Some? && !(x == root && q == p) {
        assert LabelOk(g, x) && g.own[x].path + q == q;
        var y := LookSlot(g, x, q);
        LeafFrameIsPage(m, g, managed, y);
        assert SameFrame(g, s, y) ==> y == s;
      }
    }
  }

  /** The page fault handler: it declines exactly the pages that are not copy-on-write, runs
      out of frames only when a shared page has to be split, and otherwise opens the page for
      writing without any space noticing. */
  lemma FaultCorrect(m: Machine, g: Graph, managed: set<nat>, root: nat, v: nat) returns (s: Slot, h: Graph)
    requires Inv(m, g, managed) && IsSpace(g, root) && UserPath(Path(v))
    ensures var look := Look(g, root, Path(v));
      && (WriteFault(m, root, v).NotHandled? <==> look.None? || !GetFlags(m, root, v).cow)
      && (!GetFlags(m, root, v).writable ==>
            (WriteFault(m, root, v).NotHandled? <==> look.None? || !look.value.access.mayWrite))
      && (WriteFault(m, root, v).OutOfFrames? <==>
            look.Some? && look.value.access.mayWrite && RefOf(m.pool, look.value.frame) > 1 && m.pool.free == [])
      && (WriteFault(m, root, v).Resolved? ==>
            && Inv(WriteFault(m, root, v).m, h, managed) && SamePages(m, g, WriteFault(m, root, v).m, h)
            && s in h.slots && IsLeaf(h, s) && At(h, s, root, Path(v))
            && h == PutLeaf(g, s, h.slots[s])
            && h.slots[s].flags == GetFlags(m, root, v).(cow := false, writable := true))
  {
    s, h := Slot(0, 0), g;
    var p := Path(v);
    SamePage(v);
    if Look(g, root, p).None? {
      WalkMissed(m, g, root, v);
    } else {
      s := WalkFound(m, g, root, p);
      LeafFrameIsPage(m, g, managed, s);
      var e := g.slots[s];
      WalkUsed(m, root, v, s, 0, LINK);
      if e.flags.writable { SoleCount(m, g, managed, s); }
      if e.flags.cow {
        var f := ResolvedFrame(m, e.frame);
        if RefOf(m.pool, e.frame) <= 1 || m.pool.free != [] {
          h := PutLeaf(g, s, Opened(e, f));
          ResolveStep(m, g, managed, root, v, s);
          ResolveInvisible(m, g, managed, s, WriteFault(m, root, v).m, f);
          assert EntryOk(g, s);
        }
      }
    }
  }

  function ResolvedFrame(m: Machine, frame: nat): nat {
    if RefOf(m.pool, frame) > 1 && Alloc(m.pool).0.Some? then Alloc(m.pool).0.value else frame
  }

  lemma ResolveStep(m: Machine, g: Graph, managed: set<nat>, root: nat, v: nat, s: Slot)
    requires Inv(m, g, managed) && IsSpace(g, root) && UserPath(Path(v))
    requires s in g.slots && IsLeaf(g, s) && WalksTo(m, root, Path(v), s)
    requires g.slots[s] == Ent(m, s.table, s.index) && g.slots[s].flags.cow
    requires RefOf(m.pool, g.slots[s].frame) <= 1 || m.pool.free != []
    ensures var f := ResolvedFrame(m, g.slots[s].frame);
      && WriteFault(m, root, v).Resolved?
      && Inv(WriteFault(m, root, v).m, PutLeaf(g, s, Opened(g.slots[s], f)), managed)
      && Resolves(m, g, s, WriteFault(m, root, v).m, f)
  {
    var e, page := g.slots[s], v / PAGE_SIZE * PAGE_SIZE;
    SamePage(v);
    assert EntryOk(g, s);
    WalkUsed(m, root, v, s, 0, LINK);
    if RefOf(m.pool, e.frame) > 1 {
      SplitFault(m, g, managed, root, v, s);
    } else {
      WalkUsed(m, root, page, s, e.frame * PAGE_SIZE, e.flags.(cow := false, writable := true));
      ReclaimStep(m, g, managed, s, WriteFault(m, root, v).m);
    }
  }

  lemma SplitFault(m: Machine, g: Graph, managed: set<nat>, root: nat, v: nat, s: Slot)
    requires Inv(m, g, managed) && IsSpace(g, root) && UserPath(Path(v))
    requires s in g.slots && IsLeaf(g, s) && WalksTo(m, root, Path(v), s)
    requires g.slots[s] == Ent(m, s.table, s.index) && g.slots[s].flags.cow && !g.slots[s].flags.huge
    requires RefOf(m.pool, g.slots[s].frame) > 1 && m.pool.free != []
    ensures var f := ResolvedFrame(m, g.slots[s].frame);
      && WriteFault(m, root, v).Resolved?
      && Inv(WriteFault(m, root, v).m, PutLeaf(g, s, Opened(g.slots[s], f)), managed)
      && Resolves(m, g, s, WriteFault(m, root, v).m, f)
  {
    var e, page := g.slots[s], v / PAGE_SIZE * PAGE_SIZE;
    SamePage(v);
    LeafFrameIsPage(m, g, managed, s);
    WalkUsed(m, root, v, s, 0, LINK);
    var (x, pool) := Alloc(m.pool);
    var m1 := Machine(m.mem[x.value := m.mem[e.frame]], pool);
    FreeUnnamed(g, m.pool, managed, x.value);
    WalkElsewhere(m, m1, g, root, Path(v), s, x.value);
    WalkUsed(m1, root, page, s, x.value * PAGE_SIZE, e.flags.(cow := false, writable := true));
    SplitStep(m, g, managed, s, x.value, pool, WriteFault(m, root, v).m);
  }

  /** Filling a frame that is no table does not disturb the walk. */
  lemma WalkElsewhere(m: Machine, m1: Machine, g: Graph, root: nat, p: seq<nat>, s: Slot, x: nat)
    requires Tree(g) && Coupled(m, g) && x !in g.own && IsSpace(g, root) && UserPath(p)
    requires WalksTo(m, root, p, s)
    requires forall y :: y in m.mem && y != x ==> y in m1.mem && m1.mem[y] == m.mem[y]
    ensures WalksTo(m1, root, p, s)
  {
    assert LabelOk(g, root);
    StepDown(m, g, root, p);
    var a := Ent(m, root, p[0]).frame;
    StepDown(m, g, a, p[1..]);
    var b := Ent(m, a, p[1]).frame;
    assert p[1..][1..] == p[2..];
    StepDown(m, g, b, p[2..]);
  }

  /** A user store changes exactly one byte of one page of one space, in place or after a fault; it
      kills exactly on pages user code may not write, and then nobody sees a change. */
  lemma StoreCorrect(m: Machine, g: Graph, managed: set<nat>, root: nat, v: nat, b: int) returns (h: Graph)
    requires Inv(m, g, managed) && IsSpace(g, root) && UserPath(Path(v))
    ensures var look := Look(g, root, Path(v));
      && (Store(m, root, v, b).NoMemory? <==>
            look.Some? && look.value.access.mayWrite && RefOf(m.pool, look.value.frame) > 1 && m.pool.free == [])
      && (Store(m, root, v, b).Killed? ==>
            && (look.None? || !look.value.access.mayWrite || !look.value.access.user)
            && Inv(Store(m, root, v, b).m, h, managed) && SamePages(m, g, Store(m, root, v, b).m, h))
      && (Store(m, root, v, b).Stored? ==>
            && look.Some? && look.value.access.mayWrite && look.value.access.user
            && Inv(Store(m, root, v, b).m, h, managed)
            && ByteStored(m, g, Store(m, root, v, b).m, h, root, Path(v), v % PAGE_SIZE, b))
  {
    h := g;
    var p := Path(v);
    if Look(g, root, p).None? {
      WalkMissed(m, g, root, v);
      var _, _ := FaultCorrect(m, g, managed, root, v);
    } else {
      var s := WalkFound(m, g, root, p);
      WalkUsed(m, root, v, s, 0, LINK);
      assert EntryOk(g, s);
      if g.slots[s].flags.writable && g.slots[s].flags.user {
        SoleCount(m, g, managed, s);
        PokeStep(m, g, managed, root, p, s, v % PAGE_SIZE, b);
      } else {
        h := RetryCorrect(m, g, managed, root, v, b);
      }
    }
  }

  /** A store that faults at a mapped page. */
  lemma RetryCorrect(m: Machine, g: Graph, managed: set<nat>, root: nat, v: nat, b: int) returns (h: Graph)
    requires Inv(m, g, managed) && IsSpace(g, root) && UserPath(Path(v)) && Look(g, root, Path(v)).Some?
    requires !MayStore(m, root, v)
    ensures var look := Look(g, root, Path(v)).value;
      && (Store(m, root, v, b).NoMemory? <==> look.access.mayWrite && RefOf(m.pool, look.frame) > 1 && m.pool.free == [])
      && (Store(m, root, v, b).Killed? ==>
            && (!look.access.mayWrite || !look.access.user)
            && Inv(Store(m, root, v, b).m, h, managed) && SamePages(m, g, Store(m, root, v, b).m, h))
      && (Store(m, root, v, b).Stored? ==>
            && look.access.mayWrite && look.access.user && Inv(Store(m, root, v, b).m, h, managed)
            && ByteStored(m, g, Store(m, root, v, b).m, h, root, Path(v), v % PAGE_SIZE, b))
  {
    var s, h' := FaultCorrect(m, g, managed, root, v);
    h := h';
    FlagsFound(m, g, managed, root, v);
    if WriteFault(m, root, v).Resolved? {
      var n := WriteFault(m, root, v).m;
      Retry(n, h, managed, root, v, s);
      if h.slots[s].flags.user { PokeStep(n, h, managed, root, Path(v), s, v % PAGE_SIZE, b); }
    } else {
      h := g;
    }
  }

  /** The flags the kernel reads are those of the leaf the space looks at. */
  lemma {:induction false} FlagsFound(m: Machine, g: Graph, managed: set<nat>, root: nat, v: nat)
    requires Inv(m, g, managed) && IsSpace(g, root) && UserPath(Path(v)) && Look(g, root, Path(v)).Some?
    ensures AccessOf(GetFlags(m, root, v)) == Look(g, root, Path(v)).value.access && GetFlags(m, root, v).present
    ensures Effective(m, root, Path(v)) == Rights(GetFlags(m, root, v).writable, GetFlags(m, root, v).user)
  {
    var s := WalkFound(m, g, root, Path(v));
    WalkUsed(m, root, v, s, 0, LINK);
    assert EntryOk(g, s);
  }

  /** After the fault the retried store finds the page open. */
  lemma {:induction false} Retry(n: Machine, h: Graph, managed: set<nat>, root: nat, v: nat, s: Slot)
    requires Inv(n, h, managed) && IsSpace(h, root) && UserPath(Path(v))
    requires s in h.slots && IsLeaf(h, s) && At(h, s, root, Path(v))
    ensures GetPhys(n, root, v) / PAGE_SIZE == h.slots[s].frame && GetFlags(n, root, v) == h.slots[s].flags
    ensures Effective(n, root, Path(v)) == Rights(h.slots[s].flags.writable, h.slots[s].flags.user)
  {
    LookVia(h, s.table, [s.index]);
    var s' := WalkFound(n, h, root, Path(v));
    SameSlot(h, s, s');
    WalkUsed(n, root, v, s', 0, LINK);
    assert EntryOk(h, s);
  }

  lemma SoleCount(m: Machine, g: Graph, managed: set<nat>, s: Slot)
    requires Inv(m, g, managed) && s in g.slots && IsLeaf(g, s) && g.slots[s].flags.writable
    ensures RefOf(m.pool, g.slots[s].frame) == 1
  {
    var f := g.slots[s].frame;
    LeafFrameIsPage(m, g, managed, s);
    assert FrameBalanced(g, m.pool, managed, f);
    forall x | x in Names(g, f) ensures x == s {
      assert SameFrame(g, s, x);
    }
    assert Names(g, f) == {s};
  }
}
