/** vmm_clone_address_space: the clone sees exactly the pages of its source, everyone else
    sees what they saw, and the cost in frames is the number of tables copied. */
module CloneProof {
  import opened Common
  import opened Frames
  import opened PageTables
  import opened FrameGraph
  import opened CopyOnWrite
  import opened CowSteps

  /** Tables below slots i.. of table t, which sits at the given depth. */
  function TableCount(g: Graph, depth: nat, t: nat, i: nat): nat
    requires depth <= 3
    decreases 3 - depth, ENTRIES - i, t
  {
    if i >= ENTRIES then 0
    else if depth < 3 && Slot(t, i) in g.slots then
      1 + TableCount(g, depth + 1, g.slots[Slot(t, i)].frame, 0) + TableCount(g, depth, t, i + 1)
    else TableCount(g, depth, t, i + 1)
  }

  predicate Under(p: seq<nat>, path: seq<nat>, i: nat) {
    path <= p && |p| > |path| && p[|path|] >= i
  }

  /** In h, space d sees what space r sees in g on the paths under `path` from index i on;
      all else is as in g. */
  ghost predicate Copied(g: Graph, h: Graph, r: nat, d: nat, path: seq<nat>, i: nat) {
    forall x, p :: IsSpace(g, x) && UserPath(p) ==>
      Look(h, x, p) == if x == d && Under(p, path, i) then Look(g, r, p) else Look(g, x, p)
  }

  /** The same for all paths that start with q. */
  ghost predicate CopiedOne(g: Graph, h: Graph, r: nat, d: nat, q: seq<nat>) {
    forall x, p :: IsSpace(g, x) && UserPath(p) ==>
      Look(h, x, p) == if x == d && q <= p then Look(g, r, p) else Look(g, x, p)
  }

  lemma CopiedBelow(g: Graph, h: Graph, r: nat, d: nat, q: seq<nat>)
    requires |q| < 4 && Copied(g, h, r, d, q, 0)
    ensures CopiedOne(g, h, r, d, q)
  {
    forall x, p | IsSpace(g, x) && UserPath(p)
      ensures Look(h, x, p) == if x == d && q <= p then Look(g, r, p) else Look(g, x, p)
    {
      assert Under(p, q, 0) <==> q <= p;
    }
  }

  lemma JoinCopies(g: Graph, g1: Graph, h: Graph, r: nat, d: nat, path: seq<nat>, i: nat)
    requires CopiedOne(g, g1, r, d, path + [i]) && Copied(g1, h, r, d, path, i + 1)
    requires |path| <= 3 && r != d && IsSpace(g, r)
    requires forall x :: IsSpace(g, x) ==> IsSpace(g1, x)
    ensures Copied(g, h, r, d, path, i)
  {
    forall x, p | IsSpace(g, x) && UserPath(p)
      ensures Look(h, x, p) == if x == d && Under(p, path, i) then Look(g, r, p) else Look(g, x, p)
    {
      assert Under(p, path, i) <==> path + [i] <= p || Under(p, path, i + 1);
      assert path + [i] <= p ==> !Under(p, path, i + 1);
    }
  }

  /** A slot that is not there hides every page behind it. */
  lemma AbsentSlot(g: Graph, t: nat, i: nat, p: seq<nat>)
    requires Tree(g) && t in g.own && |g.own[t].path| <= 3 && Slot(t, i) !in g.slots
    requires |p| == 4 && g.own[t].path + [i] <= p
    ensures Look(g, g.own[t].root, p) == None
  {
    var q := p[|g.own[t].path|..];
    LookVia(g, t, q);
    assert g.own[t].path + q == p;
  }

  lemma AbsentCopied(g: Graph, src: nat, dst: nat, i: nat)
    requires Tree(g) && src in g.own && dst in g.own && g.own[src].path == g.own[dst].path
    requires Slot(src, i) !in g.slots && Slot(dst, i) !in g.slots
    ensures CopiedOne(g, g, g.own[src].root, g.own[dst].root, g.own[src].path + [i])
  {
    assert LabelOk(g, src);
    forall p | UserPath(p) && g.own[src].path + [i] <= p
      ensures Look(g, g.own[dst].root, p) == Look(g, g.own[src].root, p)
    {
      AbsentSlot(g, src, i, p);
      AbsentSlot(g, dst, i, p);
    }
  }

  /** The tables and frames of space r are the same in both graphs, and the entries that all
      other spaces had are untouched. */
  ghost predicate SameShape(g: Graph, h: Graph, r: nat) {
    && (forall s: Slot :: s.table in g.own && g.own[s.table].root == r ==>
          (s in g.slots <==> s in h.slots) && (s in g.slots ==> h.slots[s].frame == g.slots[s].frame))
    && Untouched(g, h, r)
  }

  ghost predicate Untouched(g: Graph, h: Graph, r: nat) {
    forall s: Slot :: s.table in g.own && g.own[s.table].root != r && s in g.slots ==>
      s in h.slots && h.slots[s] == g.slots[s]
  }

  lemma {:induction false} SameTableCount(g: Graph, h: Graph, depth: nat, t: nat, i: nat)
    requires Tree(g) && t in g.own && |g.own[t].path| == depth <= 3 && SameShape(g, h, g.own[t].root)
    ensures TableCount(h, depth, t, i) == TableCount(g, depth, t, i)
    decreases 3 - depth, ENTRIES - i
  {
    if i < ENTRIES {
      SameTableCount(g, h, depth, t, i + 1);
      if depth < 3 && Slot(t, i) in g.slots {
        assert EntryOk(g, Slot(t, i));
        SameTableCount(g, h, depth + 1, g.slots[Slot(t, i)].frame, 0);
      }
    }
  }

  /** Where a clone of table src into table dst, from slot i on, may start. */
  ghost predicate Ready(m: Machine, g: Graph, managed: set<nat>, depth: nat, src: nat, dst: nat, i: nat) {
    && Inv(m, g, managed)
    && src in g.own && dst in g.own
    && g.own[src].root != g.own[dst].root
    && g.own[src].path == g.own[dst].path && |g.own[src].path| == depth <= 3
    && IsSpace(g, g.own[src].root) && IsSpace(g, g.own[dst].root)
    && (depth == 0 ==> i >= 1)
    && (forall j :: i <= j < ENTRIES ==> Slot(dst, j) !in g.slots)
  }

  /** The only old table that got new slots is `dst`. */
  ghost predicate OnlyInto(g: Graph, h: Graph, dst: nat) {
    forall s: Slot :: s in h.slots && s !in g.slots ==> s.table !in g.own || s.table == dst
  }

  /** What the clone has reached: machine n with graph h. */
  ghost predicate Reached(m: Machine, g: Graph, depth: nat, src: nat, dst: nat, i: nat, n: Machine, h: Graph)
    requires src in g.own && dst in g.own && depth <= 3
  {
    && Grown(g, h, g.own[dst].root) && SameShape(g, h, g.own[src].root)
    && Copied(g, h, g.own[src].root, g.own[dst].root, g.own[src].path, i)
    && KeepsPages(m, n, g) && OnlyInto(g, h, dst)
    && |n.pool.free| == |m.pool.free| - TableCount(g, depth, src, i)
  }

  function SlotCost(g: Graph, depth: nat, t: nat, i: nat): nat
    requires depth <= 3
  {
    if depth < 3 && Slot(t, i) in g.slots then 1 + TableCount(g, depth + 1, g.slots[Slot(t, i)].frame, 0) else 0
  }

  /** Slot i is done: machine m1 with graph g1. */
  ghost predicate OneDone(m: Machine, g: Graph, depth: nat, src: nat, dst: nat, i: nat, m1: Machine, g1: Graph)
    requires src in g.own && dst in g.own && depth <= 3
  {
    && Grown(g, g1, g.own[dst].root) && SameShape(g, g1, g.own[src].root)
    && CopiedOne(g, g1, g.own[src].root, g.own[dst].root, g.own[src].path + [i])
    && KeepsPages(m, m1, g) && OnlyInto(g, g1, dst)
    && (forall j :: i < j < ENTRIES ==> Slot(dst, j) !in g1.slots)
    && |m1.pool.free| == |m.pool.free| - SlotCost(g, depth, src, i)
  }

  lemma KeepsPagesTrans(m: Machine, m1: Machine, n: Machine, g: Graph, g1: Graph, r: nat)
    requires KeepsPages(m, m1, g) && KeepsPages(m1, n, g1) && Grown(g, g1, r) && Tree(g)
    ensures KeepsPages(m, n, g)
  {
    forall s | s in g.slots && IsLeaf(g, s)
      ensures g.slots[s].frame in m.mem && g.slots[s].frame in n.mem && n.mem[g.slots[s].frame] == m.mem[g.slots[s].frame]
    {
      assert IsLeaf(g1, s) && g1.slots[s].frame == g.slots[s].frame;
    }
  }

  lemma GrowthTrans(g: Graph, g1: Graph, h: Graph, r: nat, d: nat, dst: nat, dst1: nat)
    requires Tree(g) && Grown(g, g1, d) && Grown(g1, h, d) && SameShape(g, g1, r) && SameShape(g1, h, r)
    requires OnlyInto(g, g1, dst) && OnlyInto(g1, h, dst1) && (dst1 == dst || dst1 !in g.own)
    ensures Grown(g, h, d) && SameShape(g, h, r) && OnlyInto(g, h, dst)
  {
    forall s: Slot | s in h.slots && s !in g.slots ensures s.table !in g.own || s.table == dst {
      if s !in g1.slots && s.table in g.own { assert s.table in g1.own; }
    }
  }

  /** Where both tables of a clone sit: same place, different spaces. */
  ghost predicate Twins(g: Graph, depth: nat, src: nat, dst: nat) {
    && Tree(g)
    && src in g.own && dst in g.own
    && g.own[src].root != g.own[dst].root
    && g.own[src].path == g.own[dst].path && |g.own[src].path| == depth <= 3
    && IsSpace(g, g.own[src].root) && IsSpace(g, g.own[dst].root)
  }

  lemma Proceed(m: Machine, g: Graph, depth: nat, src: nat, dst: nat, i: nat,
                m1: Machine, g1: Graph, n: Machine, h: Graph)
    requires Twins(g, depth, src, dst) && i < ENTRIES
    requires OneDone(m, g, depth, src, dst, i, m1, g1)
    requires src in g1.own && dst in g1.own
    requires Reached(m1, g1, depth, src, dst, i + 1, n, h)
    ensures Reached(m, g, depth, src, dst, i, n, h)
  {
    JoinCopies(g, g1, h, g.own[src].root, g.own[dst].root, g.own[src].path, i);
    KeepsPagesTrans(m, m1, n, g, g1, g.own[dst].root);
    SameTableCount(g, g1, depth, src, i + 1);
    GrowthTrans(g, g1, h, g.own[src].root, g.own[dst].root, dst, dst);
  }

  lemma SharedOne(g: Graph, src: nat, dst: nat, i: nat)
    requires Twins(g, 3, src, dst) && i < ENTRIES
    requires Slot(src, i) in g.slots && Slot(dst, i) !in g.slots
    ensures CopiedOne(g, ShareGraph(g, Slot(src, i), Slot(dst, i)), g.own[src].root, g.own[dst].root, g.own[src].path + [i])
  {
    var a, b := Slot(src, i), Slot(dst, i);
    ShareLooks(g, a, b);
    var g1 := ShareGraph(g, a, b);
    var r, d, q := g.own[src].root, g.own[dst].root, g.own[src].path + [i];
    LookVia(g, src, [i]);
    forall x, p | IsSpace(g, x) && UserPath(p)
      ensures Look(g1, x, p) == if x == d && q <= p then Look(g, r, p) else Look(g, x, p)
    {
      assert q <= p <==> q == p;
    }
  }

  lemma ShareGrown(g: Graph, src: nat, dst: nat, i: nat)
    requires Twins(g, 3, src, dst) && i < ENTRIES
    requires Slot(src, i) in g.slots && Slot(dst, i) !in g.slots
    ensures var h := ShareGraph(g, Slot(src, i), Slot(dst, i));
      Grown(g, h, g.own[dst].root) && SameShape(g, h, g.own[src].root) && OnlyInto(g, h, dst)
  {
  }

  lemma ShareDone(m: Machine, g: Graph, src: nat, dst: nat, i: nat, n: Machine)
    requires Twins(g, 3, src, dst) && i < ENTRIES && Slot(src, i) in g.slots
    requires forall j :: i <= j < ENTRIES ==> Slot(dst, j) !in g.slots
    requires KeepsPages(m, n, g) && n.pool.free == m.pool.free
    ensures OneDone(m, g, 3, src, dst, i, n, ShareGraph(g, Slot(src, i), Slot(dst, i)))
  {
    ShareGrown(g, src, dst, i);
    SharedOne(g, src, dst, i);
  }

  lemma StillReady(m: Machine, g: Graph, managed: set<nat>, depth: nat, src: nat, dst: nat, i: nat, m1: Machine, g1: Graph)
    requires Twins(g, depth, src, dst) && OneDone(m, g, depth, src, dst, i, m1, g1) && Inv(m1, g1, managed)
    ensures Ready(m1, g1, managed, depth, src, dst, i + 1)
  {
  }

  lemma TableDone(m: Machine, g: Graph, depth: nat, src: nat, dst: nat, i: nat,
                  m1: Machine, g1: Graph, u: nat, c: nat, m2: Machine, g2: Graph)
    requires Twins(g, depth, src, dst) && i < ENTRIES && depth < 3
    requires Slot(src, i) in g.slots && g.slots[Slot(src, i)].frame == u
    requires forall j :: i <= j < ENTRIES ==> Slot(dst, j) !in g.slots
    requires |m1.pool.free| == |m.pool.free| - 1 && g1 == AddTable(g, dst, i, c) && c !in g.own
    requires SameLooks(g, g1) && KeepsPages(m, m1, g) && Grown(g, g1, g.own[dst].root)
    requires u in g1.own && c in g1.own && Reached(m1, g1, depth + 1, u, c, 0, m2, g2)
    requires g1.own[u].root == g.own[src].root && g1.own[u].path == g.own[src].path + [i]
    ensures OneDone(m, g, depth, src, dst, i, m2, g2)
  {
    var r, d, q := g.own[src].root, g.own[dst].root, g.own[src].path + [i];
    CopiedBelow(g1, g2, r, d, q);
    forall x, p | IsSpace(g, x) && UserPath(p)
      ensures Look(g2, x, p) == if x == d && q <= p then Look(g, r, p) else Look(g, x, p)
    {
      assert IsSpace(g1, x) && IsSpace(g1, r);
    }
    KeepsPagesTrans(m, m1, m2, g, g1, d);
    assert EntryOk(g, Slot(src, i));
    SameTableCount(g, g1, depth + 1, u, 0);
    GrowthTrans(g, g1, g2, r, d, dst, c);
  }

  /** Cloning from slot i on: it succeeds exactly when there is a free frame for every table
      to be copied, and then the rest of the source's pages are shared with the new space. */
  lemma {:induction false} CloneReaches(m: Machine, g: Graph, managed: set<nat>, depth: nat, src: nat, dst: nat, i: nat)
      returns (h: Graph)
    requires Ready(m, g, managed, depth, src, dst, i)
    ensures var n := CloneFrom(m, depth, src, dst, i);
      && (n.Some? <==> TableCount(g, depth, src, i) <= |m.pool.free|)
      && (n.Some? ==> Inv(n.value, h, managed) && Reached(m, g, depth, src, dst, i, n.value, h))
    decreases 3 - depth, ENTRIES - i, 2
  {
    h := g;
    if i >= ENTRIES {
      KeepsPagesSelf(m, g, managed);
    } else {
      var one := CloneEntry(m, depth, src, dst, i);
      var g1 := CloneOne(m, g, managed, depth, src, dst, i);
      CostSplit(g, g1, depth, src, i);
      if one.Some? {
        StillReady(m, g, managed, depth, src, dst, i, one.value, g1);
        h := CloneReaches(one.value, g1, managed, depth, src, dst, i + 1);
        SameTableCount(g, g1, depth, src, i + 1);
        var n := CloneFrom(one.value, depth, src, dst, i + 1);
        if n.Some? {
          Proceed(m, g, depth, src, dst, i, one.value, g1, n.value, h);
        }
      }
    }
  }

  lemma CostSplit(g: Graph, g1: Graph, depth: nat, src: nat, i: nat)
    requires depth <= 3 && i < ENTRIES
    ensures TableCount(g, depth, src, i) == SlotCost(g, depth, src, i) + TableCount(g, depth, src, i + 1)
  {
  }

  lemma {:induction false} CloneOne(m: Machine, g: Graph, managed: set<nat>, depth: nat, src: nat, dst: nat, i: nat)
      returns (g1: Graph)
    requires Ready(m, g, managed, depth, src, dst, i) && i < ENTRIES
    ensures var n := CloneEntry(m, depth, src, dst, i);
      && (n.Some? <==> SlotCost(g, depth, src, i) <= |m.pool.free|)
      && (n.Some? ==> OneDone(m, g, depth, src, dst, i, n.value, g1) && Inv(n.value, g1, managed))
    decreases 3 - depth, ENTRIES - i, 1
  {
    g1 := g;
    var s := Slot(src, i);
    assert UserSlot(g, s) && CoupledAt(m, g, s);
    if s !in g.slots {
      AbsentCopied(g, src, dst, i);
      KeepsPagesSelf(m, g, managed);
    } else if depth == 3 {
      ShareStep(m, g, managed, s, Slot(dst, i));
      g1 := ShareGraph(g, s, Slot(dst, i));
      ShareDone(m, g, src, dst, i, ShareLeaf(m, src, dst, i, Ent(m, src, i)));
    } else {
      assert EntryOk(g, s);
      g1 := CloneTable(m, g, managed, depth, src, dst, i);
    }
  }

  lemma {:induction false} CloneTable(m: Machine, g: Graph, managed: set<nat>, depth: nat, src: nat, dst: nat, i: nat)
      returns (g2: Graph)
    requires Ready(m, g, managed, depth, src, dst, i) && i < ENTRIES && depth < 3
    requires Slot(src, i) in g.slots && g.slots[Slot(src, i)] == Ent(m, src, i)
    ensures var (c, m1) := EnsureNext(m, dst, i);
      var n := if c.None? then None else CloneFrom(m1, depth + 1, Ent(m, src, i).frame, c.value, 0);
      && (n.Some? <==> SlotCost(g, depth, src, i) <= |m.pool.free|)
      && (n.Some? ==> OneDone(m, g, depth, src, dst, i, n.value, g2) && Inv(n.value, g2, managed))
    decreases 3 - depth, ENTRIES - i, 0
  {
    g2 := g;
    var u := Ent(m, src, i).frame;
    var (c, m1) := EnsureNext(m, dst, i);
    FirstFrame(m, g, dst, i);
    if c.Some? {
      var g1 := StartTable(m, g, managed, depth, src, dst, i, u, c.value, m1);
      g2 := CloneReaches(m1, g1, managed, depth + 1, u, c.value, 0);
      var n := CloneFrom(m1, depth + 1, u, c.value, 0);
      if n.Some? {
        TableDone(m, g, depth, src, dst, i, m1, g1, u, c.value, n.value, g2);
      }
    }
  }

  lemma StartTable(m: Machine, g: Graph, managed: set<nat>, depth: nat, src: nat, dst: nat, i: nat,
                   u: nat, c: nat, m1: Machine) returns (g1: Graph)
    requires Ready(m, g, managed, depth, src, dst, i) && i < ENTRIES && depth < 3
    requires Slot(src, i) in g.slots && g.slots[Slot(src, i)].frame == u
    requires EnsureNext(m, dst, i) == (Some(c), m1)
    ensures g1 == AddTable(g, dst, i, c) && c !in g.own && SameLooks(g, g1) && KeepsPages(m, m1, g)
    ensures Grown(g, g1, g.own[dst].root) && |m1.pool.free| == |m.pool.free| - 1
    ensures u in g1.own && c in g1.own
    ensures g1.own[u].root == g.own[src].root && g1.own[u].path == g.own[src].path + [i]
    ensures Ready(m1, g1, managed, depth + 1, u, c, 0)
    ensures TableCount(g1, depth + 1, u, 0) == TableCount(g, depth + 1, u, 0)
  {
    g1 := EnsureStep(m, g, managed, dst, i);
    assert EntryOk(g, Slot(src, i));
    FreeUnnamed(g, m.pool, managed, c);
    SameTableCount(g, g1, depth + 1, u, 0);
    assert forall j :: 0 <= j < ENTRIES ==> Slot(c, j) !in g1.slots;
  }

  lemma FirstFrame(m: Machine, g: Graph, t: nat, i: nat)
    requires Coupled(m, g) && Wf(m.pool) && UserSlot(g, Slot(t, i)) && Slot(t, i) !in g.slots
    ensures EnsureNext(m, t, i).0.Some? <==> |m.pool.free| > 0
  {
    assert CoupledAt(m, g, Slot(t, i));
  }

  /** vmm_create_address_space adds an empty space and changes nobody's pages. */
  lemma CreateStep(m: Machine, g: Graph, managed: set<nat>, kernel: Pte)
    requires Inv(m, g, managed) && g.kernel == kernel
    ensures var (r, n) := CreateSpace(m, kernel);
      && (r.Some? <==> |m.pool.free| > 0)
      && (r.Some? ==>
            && Unnamed(g, r.value) && Inv(n, AddSpace(g, r.value), managed) && KeepsPages(m, n, g)
            && NoSlots(AddSpace(g, r.value), r.value) && |n.pool.free| == |m.pool.free| - 1
            && SameLooks(g, AddSpace(g, r.value)))
  {
    var (c, n) := CreateSpace(m, kernel);
    if c.Some? {
      var r := c.value;
      var h := AddSpace(g, r);
      FreeUnnamed(g, m.pool, managed, r);
      AddSpaceTree(g, r);
      BalanceAlloc(g, h, m.pool, managed, r);
      forall s | UserSlot(h, s) ensures CoupledAt(n, h, s) {
        if s.table != r { assert UserSlot(g, s) && CoupledAt(m, g, s); }
      }
      forall x ensures KernelAt(n, h, x) {
        assert KernelAt(m, g, x);
      }
      forall s | s in g.slots && IsLeaf(g, s)
        ensures IsPage(n, g.slots[s].frame) && IsPage(m, g.slots[s].frame) && n.mem[g.slots[s].frame] == m.mem[g.slots[s].frame]
      {
        assert s !in Names(g, r);
      }
      forall s | s in h.slots && IsLeaf(h, s) ensures IsPage(n, h.slots[s].frame) {
        assert EntryOk(g, s) && IsLeaf(g, s);
      }
    }
  }

  /** The outcome of a clone of space src into the new space r. */
  ghost predicate Cloned(m: Machine, g: Graph, src: nat, r: nat, n: Machine, h: Graph) {
    && r !in g.own && IsSpace(h, r) && (forall x :: IsSpace(h, x) <==> IsSpace(g, x) || x == r)
    && KeepsPages(m, n, g)
    && SameLooks(g, h)
    && (forall p :: UserPath(p) ==> Look(h, r, p) == Look(g, src, p))
    && OnlyOwnedBy(g, h, r) && Untouched(g, h, src)
  }

  lemma {:induction false} StartClone(m: Machine, g: Graph, managed: set<nat>, src: nat, r: nat, m1: Machine)
    requires Inv(m, g, managed) && IsSpace(g, src) && r !in g.own
    requires Inv(m1, AddSpace(g, r), managed) && NoSlots(AddSpace(g, r), r)
    ensures Ready(m1, AddSpace(g, r), managed, 0, src, r, 1)
    ensures TableCount(AddSpace(g, r), 0, src, 1) == TableCount(g, 0, src, 1)
  {
    assert LabelOk(g, src);
    SameTableCount(g, AddSpace(g, r), 0, src, 1);
    assert forall j :: 1 <= j < ENTRIES ==> Slot(r, j) !in AddSpace(g, r).slots;
  }

  lemma FinishClone(m: Machine, g: Graph, managed: set<nat>, src: nat, r: nat, m1: Machine, n: Machine, h: Graph)
    requires Inv(m, g, managed) && IsSpace(g, src) && Unnamed(g, r) && SameLooks(g, AddSpace(g, r))
    requires KeepsPages(m, m1, g) && Tree(h)
    requires src in AddSpace(g, r).own && Reached(m1, AddSpace(g, r), 0, src, r, 1, n, h)
    ensures Cloned(m, g, src, r, n, h)
  {
    assert LabelOk(g, src);
    CloneSeen(g, AddSpace(g, r), h, src, r);
    KeepsPagesTrans'(m, m1, n, g, r);
    CloneOwns(g, AddSpace(g, r), h, r);
  }

  /** vmm_clone_address_space succeeds exactly when there is a frame for the new PML4 and for
      each table below the source's user slots. The clone then sees every page of the source,
      with the same bytes and the same right to write; everyone else, the source included,
      sees what they saw; and the frame counts stay exact. */
  lemma CloneCorrect(m: Machine, g: Graph, managed: set<nat>, kernel: Pte, src: nat) returns (h: Graph)
    requires Inv(m, g, managed) && IsSpace(g, src) && g.kernel == kernel
    ensures Clone(m, kernel, src).Some? <==> 1 + TableCount(g, 0, src, 1) <= |m.pool.free|
    ensures Clone(m, kernel, src).Some? ==>
      var (r, n) := Clone(m, kernel, src).value;
      Inv(n, h, managed) && Cloned(m, g, src, r, n, h)
  {
    h := g;
    CreateStep(m, g, managed, kernel);
    var (c, m1) := CreateSpace(m, kernel);
    if c.Some? {
      StartClone(m, g, managed, src, c.value, m1);
      h := CloneReaches(m1, AddSpace(g, c.value), managed, 0, src, c.value, 1);
      var n := CloneFrom(m1, 0, src, c.value, 1);
      if n.Some? {
        FinishClone(m, g, managed, src, c.value, m1, n.value, h);
      }
    }
  }

  /** All the tables and slots that h has beyond g belong to space r; of the old slots only
      permissions changed. */
  ghost predicate OnlyOwnedBy(g: Graph, h: Graph, r: nat) {
    && h.kernel == g.kernel
    && (forall t :: t in g.own <==> t in h.own && h.own[t].root != r)
    && (forall t :: t in g.own ==> h.own[t] == g.own[t])
    && (forall s: Slot :: s in g.slots <==> s in h.slots && s.table in h.own && h.own[s.table].root != r)
    && (forall s :: s in g.slots ==> h.slots[s].frame == g.slots[s].frame)
  }

  lemma CloneSeen(g: Graph, g1: Graph, h: Graph, src: nat, r: nat)
    requires Tree(g) && IsSpace(g, src) && Unnamed(g, r) && g1 == AddSpace(g, r) && SameLooks(g, g1)
    requires Copied(g1, h, src, r, [], 1)
    ensures SameLooks(g, h)
    ensures forall p :: UserPath(p) ==> Look(h, r, p) == Look(g, src, p)
  {
    forall x, p | UserPath(p) && (IsSpace(g, x) || x == r)
      ensures Look(h, x, p) == Look(g, if x == r then src else x, p)
    {
      assert IsSpace(g1, x) && IsSpace(g1, src) && Under(p, [], 1);
    }
  }

  lemma KeepsPagesTrans'(m: Machine, m1: Machine, n: Machine, g: Graph, r: nat)
    requires Tree(g) && r !in g.own && KeepsPages(m, m1, g) && KeepsPages(m1, n, AddSpace(g, r))
    ensures KeepsPages(m, n, g)
  {
    forall s | s in g.slots && IsLeaf(g, s)
      ensures g.slots[s].frame in m.mem && g.slots[s].frame in n.mem && n.mem[g.slots[s].frame] == m.mem[g.slots[s].frame]
    {
      assert IsLeaf(AddSpace(g, r), s);
    }
  }

  lemma CloneOwns(g: Graph, g1: Graph, h: Graph, r: nat)
    requires Tree(g) && Tree(h) && Unnamed(g, r) && g1 == AddSpace(g, r) && Grown(g1, h, r)
    ensures OnlyOwnedBy(g, h, r)
    ensures forall x :: IsSpace(h, x) <==> IsSpace(g, x) || x == r
  {
    forall t | t in g.own ensures h.own[t] == g.own[t] && h.own[t].root != r {
      RootOwned(g, t);
    }
    forall s | s in g.slots ensures s in h.slots && s.table in g.own && h.slots[s].frame == g.slots[s].frame {
      assert EntryOk(g, s);
    }
  }

  lemma {:induction false} RootOwned(g: Graph, t: nat)
    requires Tree(g) && t in g.own
    ensures IsSpace(g, g.own[t].root)
    decreases |g.own[t].path|
  {
    assert LabelOk(g, t);
    if g.own[t].path != [] { RootOwned(g, g.own[t].parent); }
  }
}
