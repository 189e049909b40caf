/** Giving a space a fresh page: allocate, vmm_map, clear (as src/kernel/elf.c does). */
module FreshPage {
  import opened Common
  import opened Frames
  import opened PageTables
  import opened FrameGraph
  import opened CopyOnWrite
  import opened CowSteps
  import opened FaultProof

  ghost predicate SameRefs(m: Machine, n: Machine, f: nat) {
    RefOf(n.pool, f) == RefOf(m.pool, f) && (f !in m.pool.free ==> f !in n.pool.free)
  }

  /** The tables along q have been created below t, ending at u. */
  ghost predicate ChainBuilt(m: Machine, g: Graph, t: nat, q: seq<nat>, n: Machine, h: Graph, u: nat)
    requires t in g.own
  {
    && SameLooks(g, h) && KeepsPages(m, n, g) && Grown(g, h, g.own[t].root)
    && u in h.own && h.own[u].root == g.own[t].root && h.own[u].path == g.own[t].path + q
    && (forall f :: f !in m.pool.free ==> SameRefs(m, n, f))
  }

  lemma {:induction false} BuildChain(m: Machine, g: Graph, managed: set<nat>, t: nat, q: seq<nat>) returns (h: Graph)
    requires Inv(m, g, managed) && t in g.own && |g.own[t].path| + |q| <= 3
    requires forall d :: 0 <= d < |q| ==> q[d] < ENTRIES
    requires q != [] && g.own[t].path == [] ==> q[0] >= 1
    ensures EnsureChain(m, t, q).0.Some? <==> Missing(m, t, q) <= |m.pool.free|
    ensures var (u, n) := EnsureChain(m, t, q);
      u.Some? ==> Inv(n, h, managed) && ChainBuilt(m, g, t, q, n, h, u.value)
    decreases |q|
  {
    h := g;
    if q == [] {
      assert g.own[t].path + q == g.own[t].path;
      KeepsPagesSelf(m, g, managed);
    } else {
      var (c, m1) := EnsureNext(m, t, q[0]);
      assert UserSlot(g, Slot(t, q[0])) && CoupledAt(m, g, Slot(t, q[0]));
      if c.Some? {
        var g1 := EnsureStep(m, g, managed, t, q[0]);
        AllocRefs(m, t, q[0]);
        h := BuildChain(m1, g1, managed, c.value, q[1..]);
        ChildMissing(m, g, managed, t, q);
        var (u, n) := EnsureChain(m1, c.value, q[1..]);
        if u.Some? {
          ChainTrans(m, g, t, q, m1, g1, c.value, n, h, u.value);
        }
      }
    }
  }

  lemma AllocRefs(m: Machine, t: nat, i: nat)
    requires Wf(m.pool) && EnsureNext(m, t, i).0.Some?
    ensures forall f :: f !in m.pool.free ==> SameRefs(m, EnsureNext(m, t, i).1, f)
  {
    if Next(m, t, i).None? {
      assert forall x :: x in m.pool.free[..|m.pool.free| - 1] ==> x in m.pool.free;
    }
  }

  lemma {:induction false} ChildMissing(m: Machine, g: Graph, managed: set<nat>, t: nat, q: seq<nat>)
    requires Inv(m, g, managed) && q != [] && t in g.own && q[0] < ENTRIES && EnsureNext(m, t, q[0]).0.Some?
    ensures var (c, m1) := EnsureNext(m, t, q[0]);
      && Missing(m1, c.value, q[1..]) == (if Next(m, t, q[0]).None? then |q| - 1 else Missing(m, t, q))
      && |m1.pool.free| == |m.pool.free| - (if Next(m, t, q[0]).None? then 1 else 0)
  {
    TableNotFree(m, g, managed, t);
    FirstLink(m, |q|, t, q);
    OneFrameLess(m, t, q[0]);
  }

  lemma OneFrameLess(m: Machine, t: nat, i: nat)
    requires Wf(m.pool) && EnsureNext(m, t, i).0.Some?
    ensures |EnsureNext(m, t, i).1.pool.free| == |m.pool.free| - (if Next(m, t, i).None? then 1 else 0)
  {
  }

  lemma TableNotFree(m: Machine, g: Graph, managed: set<nat>, t: nat)
    requires Inv(m, g, managed) && t in g.own
    ensures t !in m.pool.free
  {
    if t in m.pool.free { FreeUnnamed(g, m.pool, managed, t); }
  }

  lemma ChainTrans(m: Machine, g: Graph, t: nat, q: seq<nat>, m1: Machine, g1: Graph, c: nat,
                   n: Machine, h: Graph, u: nat)
    requires Tree(g) && t in g.own && q != [] && c in g1.own
    requires g1.own[c].root == g.own[t].root && g1.own[c].path == g.own[t].path + [q[0]]
    requires SameLooks(g, g1) && KeepsPages(m, m1, g) && Grown(g, g1, g.own[t].root)
    requires forall f :: f !in m.pool.free ==> SameRefs(m, m1, f)
    requires ChainBuilt(m1, g1, c, q[1..], n, h, u)
    ensures ChainBuilt(m, g, t, q, n, h, u)
  {
    assert g.own[t].path + q == g.own[t].path + [q[0]] + q[1..];
    forall r, p | IsSpace(g, r) && UserPath(p) ensures Look(h, r, p) == Look(g, r, p) {
      assert IsSpace(g1, r);
    }
    forall s | s in g.slots && IsLeaf(g, s)
      ensures g.slots[s].frame in m.mem && g.slots[s].frame in n.mem && n.mem[g.slots[s].frame] == m.mem[g.slots[s].frame]
    {
      assert IsLeaf(g1, s) && g1.slots[s].frame == g.slots[s].frame;
    }
    forall f | f !in m.pool.free ensures SameRefs(m, n, f) {
      assert SameRefs(m, m1, f);
    }
    forall s | s in h.slots && s !in g.slots ensures s.table in h.own && h.own[s.table].root == g.own[t].root {
      if s in g1.slots { assert s.table in g1.own; }
    }
  }

  /** A frame taken from the pool but not yet named is simply not managed for a while. */
  lemma HoldBack(m: Machine, g: Graph, managed: set<nat>, f: nat)
    requires Inv(m, g, managed) && Alloc(m.pool).0 == Some(f)
    ensures Inv(m.(pool := Alloc(m.pool).1), g, managed - {f}) && f in managed && Unnamed(g, f)
    ensures RefOf(Alloc(m.pool).1, f) == 1 && f !in Alloc(m.pool).1.free
  {
    var pool := Alloc(m.pool).1;
    FreeUnnamed(g, m.pool, managed, f);
    HeldBalanced(g, m.pool, managed, f);
    forall s | UserSlot(g, s) ensures CoupledAt(m.(pool := pool), g, s) {
      assert CoupledAt(m, g, s);
    }
    forall r ensures KernelAt(m.(pool := pool), g, r) {
      assert KernelAt(m, g, r);
    }
    forall s | s in g.slots && IsLeaf(g, s) ensures IsPage(m.(pool := pool), g.slots[s].frame) {
      assert IsPage(m, g.slots[s].frame);
    }
  }

  lemma HeldBalanced(g: Graph, pool: Pool, managed: set<nat>, f: nat)
    requires Balanced(g, pool, managed) && Alloc(pool).0 == Some(f) && Unnamed(g, f)
    ensures Balanced(g, Alloc(pool).1, managed - {f}) && f !in Alloc(pool).1.free
  {
    var k := |pool.free| - 1;
    assert pool.free == pool.free[..k] + [f];
    forall x ensures FrameBalanced(g, Alloc(pool).1, managed - {f}, x) {
      assert FrameBalanced(g, pool, managed, x);
      assert x in pool.free <==> x in pool.free[..k] || x == f;
    }
    forall s | s in g.slots ensures NamesManaged(g, managed - {f}, s) {
      assert NamesManaged(g, managed, s);
      assert s !in Names(g, f);
    }
  }

  /** Naming the held frame in an empty leaf slot brings it back. */
  lemma NameHeld(g: Graph, h: Graph, pool: Pool, managed: set<nat>, f: nat, s: Slot)
    requires Tree(g) && Balanced(g, pool, managed - {f}) && f in managed && f < MAX_FRAMES
    requires Unnamed(g, f) && RefOf(pool, f) == 1 && f !in pool.free
    requires s !in g.slots && h.own == g.own && s in h.slots && h.slots == g.slots[s := h.slots[s]] && h.slots[s].frame == f
    ensures Balanced(h, pool, managed)
  {
    NamesAdd(g, h, s, h.slots[s]);
    CountZero(g, f);
    forall x ensures FrameBalanced(h, pool, managed, x) {
      assert FrameBalanced(g, pool, managed - {f}, x);
    }
    forall y | y in h.slots ensures NamesManaged(h, managed, y) {
      if y != s { assert NamesManaged(g, managed - {f}, y); }
    }
  }

  // ---------------------------------------------------------------- the fresh page

  lemma FreshLeafCoupled(n: Machine, g: Graph, managed: set<nat>, s: Slot, e: Pte, n1: Machine)
    requires Inv(n, g, managed) && IsLeaf(g, s) && UserSlot(g, s) && s !in g.slots
    requires Unnamed(g, e.frame) && e.flags.present
    requires n1 == SetEnt(n, s.table, s.index, e).(mem := SetEnt(n, s.table, s.index, e).mem[e.frame := ZeroPage()])
    ensures Coupled(n1, PutLeaf(g, s, e)) && PagesOk(n1, PutLeaf(g, s, e)) && KeepsPages(n, n1, g)
  {
    var h := PutLeaf(g, s, e);
    forall x | UserSlot(h, x) ensures CoupledAt(n1, h, x) {
      assert UserSlot(g, x) && CoupledAt(n, g, x);
    }
    forall r ensures KernelAt(n1, h, r) {
      assert KernelAt(n, g, r);
    }
    forall x | x in g.slots && IsLeaf(g, x)
      ensures g.slots[x].frame in n.mem && g.slots[x].frame in n1.mem && n1.mem[g.slots[x].frame] == n.mem[g.slots[x].frame]
      ensures IsPage(n1, g.slots[x].frame)
    {
      LeafFrameIsPage(n, g, managed, x);
      assert x !in Names(g, e.frame);
    }
    forall x | x in h.slots && IsLeaf(h, x) ensures IsPage(n1, h.slots[x].frame) {
      if x != s { assert IsLeaf(g, x); }
    }
  }

  /** Mapping the held frame f into the empty leaf slot s and clearing it. */
  lemma FreshLeaf(n: Machine, g: Graph, managed: set<nat>, s: Slot, e: Pte, n1: Machine)
    requires Inv(n, g, managed - {e.frame}) && IsLeaf(g, s) && UserSlot(g, s) && s !in g.slots
    requires e.frame in managed && e.frame < MAX_FRAMES && Unnamed(g, e.frame) && e.flags.present && !e.flags.huge
    requires RefOf(n.pool, e.frame) == 1 && e.frame !in n.pool.free
    requires n1 == SetEnt(n, s.table, s.index, e).(mem := SetEnt(n, s.table, s.index, e).mem[e.frame := ZeroPage()])
    ensures Inv(n1, PutLeaf(g, s, e), managed) && KeepsPages(n, n1, g)
  {
    var h := PutLeaf(g, s, e);
    LeafTree(g, h, s);
    forall x | x in g.slots ensures g.slots[x].frame != e.frame {
      assert x !in Names(g, e.frame);
    }
    SoleLeaf(g, h, s);
    NameHeld(g, h, n.pool, managed, e.frame, s);
    FreshLeafCoupled(n, g, managed - {e.frame}, s, e, n1);
  }

  /** One new page, all zero, in one space. */
  ghost predicate PageAdded(m: Machine, g: Graph, n: Machine, h: Graph, root: nat, p: seq<nat>, access: Access) {
    && h.kernel == g.kernel && (forall x :: IsSpace(h, x) <==> IsSpace(g, x))
    && (forall x, q :: IsSpace(g, x) && UserPath(q) ==>
          PageAt(n, h, x, q) ==
          if x == root && q == p then Some(Page(ZeroPage().bytes, access)) else PageAt(m, g, x, q))
  }

  /** The frame f held back and the chain of tables along q built: machine n, graph h, table u. */
  ghost predicate Prepared(m: Machine, g: Graph, managed: set<nat>, root: nat, q: seq<nat>, f: nat, n: Machine, h: Graph, u: nat)
    requires root in g.own
  {
    && Alloc(m.pool).0 == Some(f) && EnsureChain(m.(pool := Alloc(m.pool).1), root, q) == (Some(u), n)
    && Inv(n, h, managed - {f}) && ChainBuilt(m.(pool := Alloc(m.pool).1), g, root, q, n, h, u)
    && f in managed && f < MAX_FRAMES && Unnamed(h, f) && RefOf(n.pool, f) == 1 && f !in n.pool.free
  }

  lemma Prepare(m: Machine, g: Graph, managed: set<nat>, root: nat, p: seq<nat>)
      returns (f: nat, n: Machine, h: Graph, u: nat)
    requires Inv(m, g, managed) && IsSpace(g, root) && UserPath(p)
    requires 1 + Missing(m, root, p[..3]) <= |m.pool.free|
    ensures Prepared(m, g, managed, root, p[..3], f, n, h, u)
  {
    f := Alloc(m.pool).0.value;
    var m0 := m.(pool := Alloc(m.pool).1);
    HoldBack(m, g, managed, f);
    assert LabelOk(g, root);
    SameMissing(m, m0, root, p[..3]);
    h := BuildChain(m0, g, managed - {f}, root, p[..3]);
    u, n := EnsureChain(m0, root, p[..3]).0.value, EnsureChain(m0, root, p[..3]).1;
    assert SameRefs(m0, n, f);
    HeldUnnamed(m0, g, n, h, managed, f);
  }

  /** The leaf written at the end of the chain, and the frame cleared. */
  lemma Finish(m: Machine, g: Graph, managed: set<nat>, root: nat, p: seq<nat>, flags: Flags,
               f: nat, n: Machine, g1: Graph, u: nat, n1: Machine) returns (h: Graph)
    requires Inv(m, g, managed) && IsSpace(g, root) && UserPath(p) && Look(g, root, p).None? && !flags.huge
    requires Prepared(m, g, managed, root, p[..3], f, n, g1, u)
    requires var leaf := SetEnt(n, u, p[3], Pte(f, flags.(present := true))); n1 == leaf.(mem := leaf.mem[f := ZeroPage()])
    ensures Inv(n1, h, managed) && PageAdded(m, g, n1, h, root, p, AccessOf(flags))
    ensures Look(h, root, p) == Some(PageRef(f, AccessOf(flags))) && RefOf(n1.pool, f) == 1
  {
    var s, e := Slot(u, p[3]), Pte(f, flags.(present := true));
    assert LabelOk(g, root);
    NotThereYet(g, g1, root, p, s);
    FreshLeaf(n, g1, managed, s, e, n1);
    h := PutLeaf(g1, s, e);
    assert KeepsPages(m, n, g);
    FreshSeen(m, g, n, g1, n1, root, p, s, e);
    LookVia(h, s.table, [s.index]);
  }

  /** With a free frame for the page and one for every missing table, MapFresh adds one zeroed
      page to one space, on a frame nobody else names, and changes no other page. */
  lemma FreshCorrect(m: Machine, g: Graph, managed: set<nat>, root: nat, v: nat, flags: Flags) returns (h: Graph)
    requires Inv(m, g, managed) && IsSpace(g, root) && UserPath(Path(v)) && Look(g, root, Path(v)).None?
    requires !flags.huge
    requires 1 + Missing(m, root, Path(v)[..3]) <= |m.pool.free|
    ensures MapFresh(m, root, v, flags).Some?
    ensures Inv(MapFresh(m, root, v, flags).value, h, managed)
    ensures PageAdded(m, g, MapFresh(m, root, v, flags).value, h, root, Path(v), AccessOf(flags))
    ensures Alloc(m.pool).0.Some? && Look(h, root, Path(v)) == Some(PageRef(Alloc(m.pool).0.value, AccessOf(flags)))
    ensures RefOf(MapFresh(m, root, v, flags).value.pool, Alloc(m.pool).0.value) == 1
  {
    var f, n, g1, u := Prepare(m, g, managed, root, Path(v));
    MapIsChain(m.(pool := Alloc(m.pool).1), root, v, f * PAGE_SIZE, flags);
    assert f * PAGE_SIZE / PAGE_SIZE == f;
    h := Finish(m, g, managed, root, Path(v), flags, f, n, g1, u, MapFresh(m, root, v, flags).value);
  }

  lemma {:induction false} SameMissing(m: Machine, n: Machine, t: nat, q: seq<nat>)
    requires n.mem == m.mem
    ensures Missing(n, t, q) == Missing(m, t, q)
    decreases |q|
  {
    if q != [] && Next(m, t, q[0]).Some? { SameMissing(m, n, Next(m, t, q[0]).value, q[1..]); }
  }

  lemma HeldUnnamed(m: Machine, g: Graph, n: Machine, h: Graph, managed: set<nat>, f: nat)
    requires Inv(n, h, managed - {f})
    ensures Unnamed(h, f)
  {
    assert FrameBalanced(h, n.pool, managed - {f}, f);
    forall s | s in h.slots ensures h.slots[s].frame != f {
      assert NamesManaged(h, managed - {f}, s);
    }
    assert Names(h, f) == {};
  }

  lemma NotThereYet(g: Graph, g1: Graph, root: nat, p: seq<nat>, s: Slot)
    requires Tree(g1) && SameLooks(g, g1) && IsSpace(g, root) && UserPath(p) && Look(g, root, p).None?
    requires s.table in g1.own && g1.own[s.table].root == root && g1.own[s.table].path == p[..3] && s.index == p[3]
    ensures IsLeaf(g1, s) && UserSlot(g1, s) && s !in g1.slots && At(g1, s, root, p)
  {
    assert p[..3] + [p[3]] == p;
    LookVia(g1, s.table, [s.index]);
  }

  lemma FreshSeen(m: Machine, g: Graph, n: Machine, g1: Graph, n1: Machine, root: nat, p: seq<nat>, s: Slot, e: Pte)
    requires Tree(g) && Tree(g1) && SameLooks(g, g1) && KeepsPages(m, n, g) && KeepsPages(n, n1, g1)
    requires Grown(g, g1, root) && IsLeaf(g1, s) && UserSlot(g1, s) && At(g1, s, root, p)
    requires e.frame in n1.mem && n1.mem[e.frame] == ZeroPage()
    ensures PageAdded(m, g, n1, PutLeaf(g1, s, e), root, p, AccessOf(e.flags))
  {
    var h := PutLeaf(g1, s, e);
    LeafLooks(g1, h, s);
    forall x, q | IsSpace(g, x) && UserPath(q)
      ensures PageAt(n1, h, x, q) ==
        if x == root && q == p then Some(Page(ZeroPage().bytes, AccessOf(e.flags))) else PageAt(m, g, x, q)
    {
      assert IsSpace(g1, x);
      assert LabelOk(g, x) && g.own[x].path + q == q;
      if Look(g, x, q).Some? {
        var y := LookSlot(g, x, q);
        assert IsLeaf(g1, y) && g1.slots[y].frame == g.slots[y].frame;
      }
    }
  }
}
