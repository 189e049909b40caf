/** The single memory writes that cloning, faulting and mapping are made of, each shown to
    keep the copy-on-write invariant. */
module CowSteps {
  import opened Common
  import opened Frames
  import opened PageTables
  import opened FrameGraph
  import opened CopyOnWrite

  /** The frames behind g's pages hold the same bytes in n as in m. */
  ghost predicate KeepsPages(m: Machine, n: Machine, g: Graph) {
    forall s {:trigger IsLeaf(g, s)} :: s in g.slots && IsLeaf(g, s) ==>
      var f := g.slots[s].frame;
      f in m.mem && f in n.mem && n.mem[f] == m.mem[f]
  }

  /** h has every table and slot of g, and new ones only in the space of root r. */
  ghost predicate Grown(g: Graph, h: Graph, r: nat) {
    && h.kernel == g.kernel
    && (forall t :: t in g.own ==> t in h.own && h.own[t] == g.own[t])
    && (forall t :: t in h.own && t !in g.own ==> h.own[t].root == r && h.own[t].path != [])
    && (forall s :: s in g.slots ==> s in h.slots && h.slots[s].frame == g.slots[s].frame)
    && (forall s :: s in h.slots && s !in g.slots ==> s.table in h.own && h.own[s.table].root == r)
  }

  /** Memory after ensure_next_table has put zeroed frame f into slot i of table t. */
  ghost predicate Installed(m: Machine, n: Machine, t: nat, i: nat, f: nat) {
    && Alloc(m.pool) == (Some(f), n.pool)
    && n.mem == SetEnt(m.(mem := m.mem[f := ZeroTable()]), t, i, Pte(f, LINK)).mem
  }

  lemma InstallCoupled(m: Machine, g: Graph, t: nat, i: nat, f: nat, n: Machine)
    requires Tree(g) && Coupled(m, g) && UserSlot(g, Slot(t, i)) && Unnamed(g, f)
    requires Installed(m, n, t, i, f)
    ensures Coupled(n, AddTable(g, t, i, f))
  {
    var h := AddTable(g, t, i, f);
    forall x | UserSlot(h, x) ensures CoupledAt(n, h, x) {
      if x.table == f {
        assert x in g.slots ==> EntryOk(g, x);
      } else {
        assert UserSlot(g, x) && CoupledAt(m, g, x);
      }
    }
    forall r ensures KernelAt(n, h, r) {
      assert KernelAt(m, g, r);
    }
  }

  lemma InstallPages(m: Machine, g: Graph, t: nat, i: nat, f: nat, n: Machine)
    requires Tree(g) && PagesOk(m, g) && t in g.own && |g.own[t].path| < 3 && Unnamed(g, f) && Coupled(m, g)
    requires Slot(t, i) !in g.slots
    requires Installed(m, n, t, i, f)
    ensures KeepsPages(m, n, g) && PagesOk(n, AddTable(g, t, i, f))
  {
    var h := AddTable(g, t, i, f);
    forall x | x in g.slots && IsLeaf(g, x)
      ensures IsPage(m, g.slots[x].frame) && IsPage(n, g.slots[x].frame) && n.mem[g.slots[x].frame] == m.mem[g.slots[x].frame]
    {
      assert EntryOk(g, x);
      assert x !in Names(g, f);
      assert g.slots[x].frame != t;
    }
    forall x | x in h.slots && IsLeaf(h, x) ensures IsPage(n, h.slots[x].frame) {
      if x in g.slots { assert EntryOk(g, x) && IsLeaf(g, x); }
    }
  }

  lemma InstallStep(m: Machine, g: Graph, managed: set<nat>, t: nat, i: nat, f: nat, n: Machine)
    requires Inv(m, g, managed) && UserSlot(g, Slot(t, i)) && |g.own[t].path| < 3 && Slot(t, i) !in g.slots
    requires Installed(m, n, t, i, f)
    ensures Unnamed(g, f) && Inv(n, AddTable(g, t, i, f), managed) && KeepsPages(m, n, g)
  {
    FreeUnnamed(g, m.pool, managed, f);
    AddTableTree(g, t, i, f);
    InstallCoupled(m, g, t, i, f, n);
    InstallPages(m, g, t, i, f, n);
    BalanceAlloc(g, AddTable(g, t, i, f), m.pool, managed, f);
  }

  lemma EnsureStep(m: Machine, g: Graph, managed: set<nat>, t: nat, i: nat) returns (h: Graph)
    requires Inv(m, g, managed) && UserSlot(g, Slot(t, i)) && |g.own[t].path| < 3
    requires EnsureNext(m, t, i).0.Some?
    ensures var (c, n) := EnsureNext(m, t, i);
      && Inv(n, h, managed) && Grown(g, h, g.own[t].root) && SameLooks(g, h) && KeepsPages(m, n, g)
      && (forall s :: s in g.slots ==> h.slots[s] == g.slots[s])
      && Slot(t, i) in h.slots && h.slots[Slot(t, i)].frame == c.value
      && c.value in h.own && h.own[c.value] == Label(g.own[t].root, g.own[t].path + [i], t)
      && (if Slot(t, i) in g.slots then n == m && h == g && c.value == g.slots[Slot(t, i)].frame
          else NoSlots(h, c.value) && h == AddTable(g, t, i, c.value) && Installed(m, n, t, i, c.value))
  {
    var s := Slot(t, i);
    assert CoupledAt(m, g, s);
    var (c, n) := EnsureNext(m, t, i);
    h := g;
    if s in g.slots {
      assert EntryOk(g, s);
      KeepsPagesSelf(m, g, managed);
    } else {
      assert Installed(m, n, t, i, c.value);
      InstallStep(m, g, managed, t, i, c.value, n);
      h := AddTable(g, t, i, c.value);
      AddTableTree(g, t, i, c.value);
      AddTableLooks(g, t, i, c.value);
    }
  }

  lemma KeepsPagesSelf(m: Machine, g: Graph, managed: set<nat>)
    requires Inv(m, g, managed)
    ensures KeepsPages(m, m, g)
  {
    forall s | s in g.slots && IsLeaf(g, s) ensures g.slots[s].frame in m.mem {
      assert IsPage(m, g.slots[s].frame);
    }
  }

  lemma LeafFrameIsPage(m: Machine, g: Graph, managed: set<nat>, s: Slot)
    requires Inv(m, g, managed) && s in g.slots && IsLeaf(g, s)
    ensures g.slots[s].frame !in g.own && g.slots[s].frame in managed && IsPage(m, g.slots[s].frame)
    ensures Ent(m, s.table, s.index) == g.slots[s] && UserSlot(g, s)
    ensures Count(g, g.slots[s].frame) > 0
  {
    assert EntryOk(g, s) && CoupledAt(m, g, s) && NamesManaged(g, managed, s);
    assert s in Names(g, g.slots[s].frame);
  }

  /** The graph after cloning one leaf. */
  function ShareGraph(g: Graph, a: Slot, b: Slot): Graph
    requires a in g.slots
  {
    PutLeaf(PutLeaf(g, a, Shared(g.slots[a])), b, Shared(g.slots[a]))
  }

  /** The new space gets the page of the old one, and nobody else sees a change. */
  lemma ShareLooks(g: Graph, a: Slot, b: Slot)
    requires Tree(g) && a in g.slots && IsLeaf(g, a)
    requires IsLeaf(g, b) && UserSlot(g, b) && b !in g.slots
    ensures Tree(ShareGraph(g, a, b))
    ensures CountsDiffer(g, ShareGraph(g, a, b), g.slots[a].frame, 1)
    ensures forall r, p :: IsSpace(g, r) && UserPath(p) ==>
      Look(ShareGraph(g, a, b), r, p) ==
      if At(g, b, r, p) then Some(PageRef(g.slots[a].frame, AccessOf(g.slots[a].flags))) else Look(g, r, p)
  {
    var e' := Shared(g.slots[a]);
    assert EntryOk(g, a);
    var g1 := PutLeaf(g, a, e');
    var h := PutLeaf(g1, b, e');
    LeafTree(g, g1, a);
    LeafTree(g1, h, b);
    LeafLooks(g, g1, a);
    LeafLooks(g1, h, b);
    LookVia(g, a.table, [a.index]);
    assert forall x :: Names(g1, x) == Names(g, x);
    NamesAdd(g1, h, b, e');
  }

  lemma ShareBalanced(m: Machine, g: Graph, managed: set<nat>, a: Slot, b: Slot)
    requires Inv(m, g, managed) && a in g.slots && IsLeaf(g, a)
    requires IsLeaf(g, b) && UserSlot(g, b) && b !in g.slots
    requires Tree(ShareGraph(g, a, b)) && CountsDiffer(g, ShareGraph(g, a, b), g.slots[a].frame, 1)
    ensures Balanced(ShareGraph(g, a, b), RefInc(m.pool, g.slots[a].frame), managed)
  {
    var h := ShareGraph(g, a, b);
    LeafFrameIsPage(m, g, managed, a);
    forall t | t in h.own ensures t < MAX_FRAMES { assert FrameBalanced(g, m.pool, managed, t); }
    CountFits(h, g.slots[a].frame);
    BalanceInc(g, h, m.pool, managed, g.slots[a].frame);
  }

  lemma SharePages(m: Machine, g: Graph, managed: set<nat>, a: Slot, b: Slot)
    requires Inv(m, g, managed) && a in g.slots && IsLeaf(g, a)
    requires IsLeaf(g, b) && UserSlot(g, b) && b !in g.slots
    ensures var n := ShareLeaf(m, a.table, b.table, a.index, g.slots[a]);
      KeepsPages(m, n, g) && PagesOk(n, ShareGraph(g, a, b))
  {
    var n := ShareLeaf(m, a.table, b.table, a.index, g.slots[a]);
    var h := ShareGraph(g, a, b);
    LeafFrameIsPage(m, g, managed, a);
    forall x | x in g.slots && IsLeaf(g, x)
      ensures g.slots[x].frame in m.mem && g.slots[x].frame in n.mem && n.mem[g.slots[x].frame] == m.mem[g.slots[x].frame]
    {
      LeafFrameIsPage(m, g, managed, x);
    }
    forall x | x in h.slots && IsLeaf(h, x) ensures IsPage(n, h.slots[x].frame) {
      if x != b {
        assert IsLeaf(g, x) && h.slots[x].frame == g.slots[x].frame;
        LeafFrameIsPage(m, g, managed, x);
      }
    }
  }

  /** Cloning one leaf keeps the invariant. */
  lemma ShareStep(m: Machine, g: Graph, managed: set<nat>, a: Slot, b: Slot)
    requires Inv(m, g, managed) && a in g.slots && IsLeaf(g, a)
    requires IsLeaf(g, b) && UserSlot(g, b) && b !in g.slots && a.index == b.index
    ensures g.slots[a] == Ent(m, a.table, a.index)
    ensures Inv(ShareLeaf(m, a.table, b.table, a.index, g.slots[a]), ShareGraph(g, a, b), managed)
    ensures KeepsPages(m, ShareLeaf(m, a.table, b.table, a.index, g.slots[a]), g)
  {
    LeafFrameIsPage(m, g, managed, a);
    assert EntryOk(g, a);
    ShareLooks(g, a, b);
    ShareBalanced(m, g, managed, a, b);
    SharePages(m, g, managed, a, b);
    ShareSole(g, ShareGraph(g, a, b), a, b);
    ShareCoupled(m, g, ShareGraph(g, a, b), a.table, b.table, a.index);
  }

  lemma ShareSole(g: Graph, h: Graph, a: Slot, b: Slot)
    requires Sole(g) && a in g.slots && IsLeaf(g, a) && b !in g.slots
    requires h == PutLeaf(PutLeaf(g, a, Shared(g.slots[a])), b, Shared(g.slots[a]))
    ensures Sole(h)
  {
    forall x, y | x in h.slots && IsLeaf(h, x) && h.slots[x].flags.writable && SameFrame(h, x, y) ensures y == x {
      assert x != a && x != b && IsLeaf(g, x);
      assert SameFrame(g, x, if y == b then a else y);
    }
  }

  lemma ShareCoupled(m: Machine, g: Graph, h: Graph, src: nat, dst: nat, i: nat)
    requires Coupled(m, g) && Slot(src, i) in g.slots && UserSlot(g, Slot(src, i)) && UserSlot(g, Slot(dst, i))
    requires g.slots[Slot(src, i)] == Ent(m, src, i) && g.slots[Slot(src, i)].flags.present
    requires h == PutLeaf(PutLeaf(g, Slot(src, i), Shared(Ent(m, src, i))), Slot(dst, i), Shared(Ent(m, src, i)))
    ensures Coupled(ShareLeaf(m, src, dst, i, Ent(m, src, i)), h)
  {
    var n := ShareLeaf(m, src, dst, i, Ent(m, src, i));
    forall s | UserSlot(h, s) ensures CoupledAt(n, h, s) {
      assert UserSlot(g, s) && CoupledAt(m, g, s);
    }
    forall r ensures KernelAt(n, h, r) {
      assert KernelAt(m, g, r);
    }
  }
}
