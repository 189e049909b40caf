/** vmm_destroy_address_space: everything one space owns is given back, and nothing else. */
module DestroyProof {
  import opened Common
  import opened Frames
  import opened PageTables
  import opened FrameGraph
  import opened CopyOnWrite
  import opened CowSteps
  import opened CloneProof

  /** Slot s hangs below the given place of space r. */
  predicate SlotUnder(g: Graph, s: Slot, r: nat, path: seq<nat>, i: nat)
    requires s.table in g.own
  {
    g.own[s.table].root == r && Under(g.own[s.table].path + [s.index], path, i)
  }

  ghost predicate TableUnder(g: Graph, t: nat, r: nat, path: seq<nat>, i: nat)
    requires t in g.own
  {
    g.own[t].root == r && Under(g.own[t].path, path, i)
  }

  /** h is g without the tables and slots of space r under `path` from index i on. */
  ghost predicate Pruned(g: Graph, h: Graph, r: nat, path: seq<nat>, i: nat) {
    && h.kernel == g.kernel
    && (forall t :: t in h.own <==> t in g.own && !TableUnder(g, t, r, path, i))
    && (forall t :: t in h.own ==> h.own[t] == g.own[t])
    && (forall s: Slot :: s in h.slots <==> s in g.slots && s.table in g.own && !SlotUnder(g, s, r, path, i))
    && (forall s :: s in h.slots ==> h.slots[s] == g.slots[s])
  }

  /** The same for everything at or below the place q. */
  ghost predicate PrunedOne(g: Graph, h: Graph, r: nat, q: seq<nat>) {
    && h.kernel == g.kernel
    && (forall t :: t in h.own <==> t in g.own && !(g.own[t].root == r && q <= g.own[t].path))
    && (forall t :: t in h.own ==> h.own[t] == g.own[t])
    && (forall s: Slot :: s in h.slots <==>
          s in g.slots && s.table in g.own && !(g.own[s.table].root == r && q <= g.own[s.table].path + [s.index]))
    && (forall s :: s in h.slots ==> h.slots[s] == g.slots[s])
  }

  lemma JoinPrunings(g: Graph, g1: Graph, h: Graph, r: nat, path: seq<nat>, i: nat)
    requires PrunedOne(g, g1, r, path + [i]) && Pruned(g1, h, r, path, i + 1)
    ensures Pruned(g, h, r, path, i)
  {
    forall p: seq<nat> ensures Under(p, path, i) <==> path + [i] <= p || Under(p, path, i + 1) {
    }
    forall t ensures t in h.own <==> t in g.own && !TableUnder(g, t, r, path, i) {
      if t in g1.own { assert TableUnder(g1, t, r, path, i + 1) <==> TableUnder(g, t, r, path, i + 1); }
    }
    forall s: Slot ensures s in h.slots <==> s in g.slots && s.table in g.own && !SlotUnder(g, s, r, path, i) {
      if s.table in g1.own { assert SlotUnder(g1, s, r, path, i + 1) <==> SlotUnder(g, s, r, path, i + 1); }
    }
  }

  /** Memory agrees with the graph on the part still to be destroyed. */
  ghost predicate CoupledUnder(m: Machine, g: Graph, r: nat, path: seq<nat>, i: nat) {
    forall s {:trigger CoupledAt(m, g, s)} :: UserSlot(g, s) && SlotUnder(g, s, r, path, i) ==> CoupledAt(m, g, s)
  }

  ghost predicate OthersSame(g: Graph, h: Graph, r: nat) {
    forall x, p :: IsSpace(g, x) && x != r && UserPath(p) ==> Look(h, x, p) == Look(g, x, p)
  }

  /** Graph and pool while a space is being taken apart; memory itself is not consulted. */
  ghost predicate Sound(g: Graph, pool: Pool, managed: set<nat>) {
    Tree(g) && Sole(g) && Balanced(g, pool, managed)
  }

  /** Freeing one leaf. */
  lemma LeafFreed(g: Graph, pool: Pool, managed: set<nat>, s: Slot)
    requires Sound(g, pool, managed) && s in g.slots && IsLeaf(g, s)
    ensures Sound(CutLeaf(g, s), Free(pool, g.slots[s].frame), managed)
    ensures PrunedOne(g, CutLeaf(g, s), g.own[s.table].root, g.own[s.table].path + [s.index])
    ensures OthersSame(g, CutLeaf(g, s), g.own[s.table].root)
  {
    var h, q := CutLeaf(g, s), g.own[s.table].path + [s.index];
    assert EntryOk(g, s) && NamesManaged(g, managed, s);
    LeafTree(g, h, s);
    LeafLooks(g, h, s);
    NamesCut(g, h, s);
    BalanceFree(g, h, pool, managed, g.slots[s].frame);
    forall x, y | x in h.slots && IsLeaf(h, x) && h.slots[x].flags.writable && SameFrame(h, x, y) ensures y == x {
      assert IsLeaf(g, x) && SameFrame(g, x, y);
    }
    forall x | x in g.slots ensures x.table in g.own {
      assert EntryOk(g, x);
    }
    forall t | t in g.own ensures !(q <= g.own[t].path) {
      assert LabelOk(g, t);
    }
    forall x | x in g.slots && g.own[x.table].root == g.own[s.table].root && q <= g.own[x.table].path + [x.index]
      ensures x == s
    {
      SameLeaf(g, s, x);
    }
  }

  lemma SameLeaf(g: Graph, s: Slot, x: Slot)
    requires Tree(g) && s in g.slots && x in g.slots && IsLeaf(g, s) && x.table in g.own
    requires g.own[x.table].root == g.own[s.table].root
    requires g.own[s.table].path + [s.index] <= g.own[x.table].path + [x.index]
    ensures x == s
  {
    assert EntryOk(g, x) && LabelOk(g, x.table) && LabelOk(g, s.table);
    var a, b := g.own[s.table].path + [s.index], g.own[x.table].path + [x.index];
    assert a == b && a[..3] == g.own[s.table].path && b[..3] == g.own[x.table].path;
    PlaceUnique(g, s.table, x.table);
  }

  /** Freeing one emptied table. */
  lemma TableFreed(g: Graph, pool: Pool, managed: set<nat>, c: nat)
    requires Sound(g, pool, managed) && c in g.own && g.own[c].path != [] && NoSlots(g, c)
    ensures Sound(CutTable(g, c), Free(pool, c), managed)
    ensures OthersSame(g, CutTable(g, c), g.own[c].root)
  {
    CutTableTree(g, c);
    assert LabelOk(g, c);
    assert FrameBalanced(g, pool, managed, c);
    BalanceFree(g, CutTable(g, c), pool, managed, c);
  }

  /** With everything below table c gone, cutting c itself leaves nothing at its place. */
  lemma TablePruned(g: Graph, g1: Graph, c: nat)
    requires Tree(g) && Tree(g1) && c in g.own && g.own[c].path != []
    requires Pruned(g, g1, g.own[c].root, g.own[c].path, 0)
    ensures c in g1.own && g1.own[c] == g.own[c] && NoSlots(g1, c)
    ensures PrunedOne(g, CutTable(g1, c), g.own[c].root, g.own[c].path)
  {
    var r, q := g.own[c].root, g.own[c].path;
    var h := CutTable(g1, c);
    assert LabelOk(g, c);
    forall s | s in g1.slots ensures s.table != c {
      if s.table == c { assert SlotUnder(g, s, r, q, 0); }
    }
    forall t ensures t in h.own <==> t in g.own && !(g.own[t].root == r && q <= g.own[t].path) {
      if t in g.own && g.own[t].root == r && q <= g.own[t].path {
        if g.own[t].path == q { PlaceUnique(g, t, c); } else { assert TableUnder(g, t, r, q, 0); }
      }
    }
    forall s: Slot ensures s in h.slots <==>
      s in g.slots && s.table in g.own && !(g.own[s.table].root == r && q <= g.own[s.table].path + [s.index])
    {
      if s in g.slots && s.table in g.own && g.own[s.table].root == r && q <= g.own[s.table].path + [s.index] {
        if g.own[s.table].path + [s.index] == q {
          assert g.own[s.table].path == q[..|q| - 1];
          PlaceUnique(g, s.table, g.own[c].parent);
        } else {
          assert SlotUnder(g, s, r, q, 0);
        }
      }
    }
  }

  /** One slot of the destroying loop: afterwards nothing is left at or below it. */
  ghost predicate Taken(g: Graph, h: Graph, m: Machine, n: Machine, managed: set<nat>, r: nat) {
    Sound(h, n.pool, managed) && n.mem == m.mem && OthersSame(g, h, r)
  }

  lemma OthersTrans(a: Graph, b: Graph, c: Graph, r: nat)
    requires OthersSame(a, b, r) && OthersSame(b, c, r)
    requires forall x :: IsSpace(a, x) && x != r ==> IsSpace(b, x)
    ensures OthersSame(a, c, r)
  {
  }

  lemma PrunedKeepsSpaces(g: Graph, h: Graph, r: nat, q: seq<nat>)
    requires q != [] && PrunedOne(g, h, r, q)
    ensures forall x :: IsSpace(g, x) ==> IsSpace(h, x)
  {
  }

  lemma {:induction false} DestroyReaches(m: Machine, g: Graph, managed: set<nat>, depth: nat, t: nat, i: nat)
      returns (h: Graph)
    requires Sound(g, m.pool, managed) && t in g.own && |g.own[t].path| == depth <= 3
    requires depth == 0 ==> i >= 1
    requires CoupledUnder(m, g, g.own[t].root, g.own[t].path, i)
    ensures Pruned(g, h, g.own[t].root, g.own[t].path, i)
    ensures Taken(g, h, m, DestroyFrom(m, depth, t, i), managed, g.own[t].root)
    decreases 3 - depth, ENTRIES - i, 1
  {
    h := g;
    var r, path := g.own[t].root, g.own[t].path;
    if i >= ENTRIES {
      NothingUnder(g, t, i);
    } else {
      var m1 := DestroyEntry(m, depth, t, i);
      var g1 := DestroyOne(m, g, managed, depth, t, i);
      StillCoupled(m, m1, g, g1, r, path, i);
      assert t in g1.own && g1.own[t] == g.own[t];
      h := DestroyReaches(m1, g1, managed, depth, t, i + 1);
      JoinPrunings(g, g1, h, r, path, i);
      PrunedKeepsSpaces(g, g1, r, path + [i]);
      OthersTrans(g, g1, h, r);
    }
  }

  lemma NothingUnder(g: Graph, t: nat, i: nat)
    requires Tree(g) && t in g.own && i >= ENTRIES
    ensures Pruned(g, g, g.own[t].root, g.own[t].path, i)
  {
    var r, path := g.own[t].root, g.own[t].path;
    forall s | s in g.slots ensures s.table in g.own && !SlotUnder(g, s, r, path, i) {
      assert EntryOk(g, s);
      IndicesSmall(g, s.table);
    }
    forall u | u in g.own ensures !TableUnder(g, u, r, path, i) {
      IndicesSmall(g, u);
    }
  }

  lemma {:induction false} IndicesSmall(g: Graph, t: nat)
    requires Tree(g) && t in g.own
    ensures forall d :: 0 <= d < |g.own[t].path| ==> g.own[t].path[d] < ENTRIES
    decreases |g.own[t].path|
  {
    assert LabelOk(g, t);
    if g.own[t].path != [] {
      assert EntryOk(g, ParentSlot(g, t));
      IndicesSmall(g, g.own[t].parent);
    }
  }

  lemma StillCoupled(m: Machine, m1: Machine, g: Graph, g1: Graph, r: nat, path: seq<nat>, i: nat)
    requires m1.mem == m.mem && CoupledUnder(m, g, r, path, i) && PrunedOne(g, g1, r, path + [i])
    ensures CoupledUnder(m1, g1, r, path, i + 1)
  {
    forall s | UserSlot(g1, s) && SlotUnder(g1, s, r, path, i + 1) ensures CoupledAt(m1, g1, s) {
      assert UserSlot(g, s) && SlotUnder(g, s, r, path, i) && CoupledAt(m, g, s);
    }
  }

  lemma NothingAt(g: Graph, t: nat, i: nat)
    requires Tree(g) && t in g.own && |g.own[t].path| <= 3 && Slot(t, i) !in g.slots
    ensures PrunedOne(g, g, g.own[t].root, g.own[t].path + [i])
  {
    var r, q := g.own[t].root, g.own[t].path + [i];
    forall u | u in g.own && g.own[u].root == r ensures !(q <= g.own[u].path) {
      NoneBelow(g, t, i, u);
    }
    forall s | s in g.slots ensures s.table in g.own && !(g.own[s.table].root == r && q <= g.own[s.table].path + [s.index]) {
      assert EntryOk(g, s);
      var a := g.own[s.table].path + [s.index];
      assert a[..|a| - 1] == g.own[s.table].path && q[..|q| - 1] == g.own[t].path;
      assert a[|a| - 1] == s.index && q[|q| - 1] == i;
      if g.own[s.table].root == r {
        if a == q {
          PlaceUnique(g, s.table, t);
        } else if |q| < |a| {
          assert q <= a <==> q <= a[..|a| - 1];
          NoneBelow(g, t, i, s.table);
        }
      }
    }
  }

  /** No table hangs below a slot that is not there. */
  lemma {:induction false} NoneBelow(g: Graph, t: nat, i: nat, u: nat)
    requires Tree(g) && t in g.own && u in g.own && g.own[u].root == g.own[t].root && Slot(t, i) !in g.slots
    ensures !(g.own[t].path + [i] <= g.own[u].path)
    decreases |g.own[u].path|
  {
    assert LabelOk(g, u);
    var q, a := g.own[t].path + [i], g.own[u].path;
    if q <= a {
      if |a| == |q| {
        assert a[..|a| - 1] == g.own[t].path;
        PlaceUnique(g, g.own[u].parent, t);
      } else {
        NoneBelow(g, t, i, g.own[u].parent);
      }
    }
  }

  lemma {:induction false} DestroyOne(m: Machine, g: Graph, managed: set<nat>, depth: nat, t: nat, i: nat)
      returns (h: Graph)
    requires Sound(g, m.pool, managed) && t in g.own && |g.own[t].path| == depth <= 3 && i < ENTRIES
    requires depth == 0 ==> i >= 1
    requires CoupledUnder(m, g, g.own[t].root, g.own[t].path, i)
    ensures PrunedOne(g, h, g.own[t].root, g.own[t].path + [i])
    ensures Taken(g, h, m, DestroyEntry(m, depth, t, i), managed, g.own[t].root)
    decreases 3 - depth, ENTRIES - i, 0
  {
    h := g;
    var s, q := Slot(t, i), g.own[t].path + [i];
    assert Under(q, g.own[t].path, i);
    assert UserSlot(g, s) && SlotUnder(g, s, g.own[t].root, g.own[t].path, i) && CoupledAt(m, g, s);
    if s !in g.slots {
      NothingAt(g, t, i);
    } else if depth == 3 {
      LeafFreed(g, m.pool, managed, s);
      h := CutLeaf(g, s);
    } else {
      var c := g.slots[s].frame;
      assert EntryOk(g, s);
      ChildCoupled(m, g, t, i, c);
      var g1 := DestroyReaches(m, g, managed, depth + 1, c, 0);
      TablePruned(g, g1, c);
      TableFreed(g1, DestroyFrom(m, depth + 1, c, 0).pool, managed, c);
      h := CutTable(g1, c);
      assert forall x :: IsSpace(g, x) ==> IsSpace(g1, x);
      OthersTrans(g, g1, h, g.own[t].root);
    }
  }

  lemma ChildCoupled(m: Machine, g: Graph, t: nat, i: nat, c: nat)
    requires t in g.own && c in g.own && g.own[c].root == g.own[t].root && g.own[c].path == g.own[t].path + [i]
    requires CoupledUnder(m, g, g.own[t].root, g.own[t].path, i)
    ensures CoupledUnder(m, g, g.own[c].root, g.own[c].path, 0)
  {
    forall s | UserSlot(g, s) && SlotUnder(g, s, g.own[c].root, g.own[c].path, 0) ensures CoupledAt(m, g, s) {
      assert SlotUnder(g, s, g.own[t].root, g.own[t].path, i);
    }
  }

  /** What is left when space r is gone: all the tables and slots of the other spaces. */
  ghost predicate Without(g: Graph, h: Graph, r: nat) {
    && h.kernel == g.kernel
    && (forall t :: t in h.own <==> t in g.own && g.own[t].root != r)
    && (forall t :: t in h.own ==> h.own[t] == g.own[t])
    && (forall s: Slot :: s in h.slots <==> s in g.slots && s.table in g.own && g.own[s.table].root != r)
    && (forall s :: s in h.slots ==> h.slots[s] == g.slots[s])
  }

  /** vmm_destroy_address_space returns every frame that only this space named, keeps every
      other space's pages as they are, and writes no memory at all. */
  lemma DestroyCorrect(m: Machine, g: Graph, managed: set<nat>, r: nat) returns (h: Graph)
    requires Inv(m, g, managed) && IsSpace(g, r)
    ensures Inv(Destroy(m, r), h, managed) && Destroy(m, r).mem == m.mem
    ensures Without(g, h, r) && OthersSame(g, h, r)
    ensures forall x :: IsSpace(h, x) <==> IsSpace(g, x) && x != r
  {
    assert LabelOk(g, r);
    var g1 := DestroyReaches(m, g, managed, 0, r, 1);
    var m1 := DestroyFrom(m, 0, r, 1);
    h := CutSpace(g1, r);
    RootPruned(g, g1, r);
    CutSpaceTree(g1, r);
    assert FrameBalanced(g1, m1.pool, managed, r);
    BalanceFree(g1, h, m1.pool, managed, r);
    WithoutKeepsMemory(m, g, h, Destroy(m, r), r);
    forall x, p | IsSpace(g, x) && x != r && UserPath(p) ensures Look(h, x, p) == Look(g, x, p) {
      assert IsSpace(g1, x);
    }
  }

  lemma RootPruned(g: Graph, g1: Graph, r: nat)
    requires Tree(g) && IsSpace(g, r) && Pruned(g, g1, r, [], 1)
    ensures IsSpace(g1, r) && NoSlots(g1, r) && Without(g, CutSpace(g1, r), r)
    ensures forall x :: IsSpace(g, x) ==> IsSpace(g1, x)
  {
    forall t | t in g.own && t != r ensures g.own[t].root == r <==> TableUnder(g, t, r, [], 1) {
      assert LabelOk(g, t);
      if g.own[t].path != [] { FirstIndex(g, t); }
    }
    forall s | s in g.slots ensures s.table in g.own && (g.own[s.table].root == r <==> SlotUnder(g, s, r, [], 1)) {
      assert EntryOk(g, s);
      if g.own[s.table].path != [] {
        FirstIndex(g, s.table);
        assert (g.own[s.table].path + [s.index])[0] == g.own[s.table].path[0];
      }
    }
    assert !TableUnder(g, r, r, [], 1) && g.own[r].root == r by { assert LabelOk(g, r); }
  }

  /** User tables hang below slots 1 to 511 of the root. */
  lemma {:induction false} FirstIndex(g: Graph, t: nat)
    requires Tree(g) && t in g.own && g.own[t].path != []
    ensures g.own[t].path[0] >= 1
    decreases |g.own[t].path|
  {
    assert LabelOk(g, t);
    assert EntryOk(g, ParentSlot(g, t));
    if |g.own[t].path| > 1 { FirstIndex(g, g.own[t].parent); }
  }

  lemma WithoutKeepsMemory(m: Machine, g: Graph, h: Graph, n: Machine, r: nat)
    requires Tree(g) && Coupled(m, g) && PagesOk(m, g) && Without(g, h, r) && n.mem == m.mem
    ensures Coupled(n, h) && PagesOk(n, h)
  {
    forall s | UserSlot(h, s) ensures CoupledAt(n, h, s) {
      assert UserSlot(g, s) && CoupledAt(m, g, s);
    }
    forall x ensures KernelAt(n, h, x) {
      assert KernelAt(m, g, x);
    }
    forall s | s in h.slots && IsLeaf(h, s) ensures IsPage(n, h.slots[s].frame) {
      assert IsLeaf(g, s) && IsPage(m, g.slots[s].frame);
    }
  }
}
