/** Who names which frame: the tables owned by each address space, their live slots, and the
    number of names every frame has. This is the ghost state behind copy-on-write; it holds no
    memory, only the shape that the memory must have. */
module FrameGraph {
  import opened Common
  import opened Frames
  import opened PageTables

  /** Where a table sits: its space, the indices leading to it, and the table above it. */
  datatype Label = Label(root: nat, path: seq<nat>, parent: nat)

  datatype Slot = Slot(table: nat, index: nat)

  /** The owned tables, the present entries of their user slots, and the entry that every PML4
      holds in slot 0. */
  datatype Graph = Graph(own: map<nat, Label>, slots: map<Slot, Pte>, kernel: Pte)

  /** What copying a page must keep: whether a store may succeed, at once or after a fault,
      whether user code may reach it, and the bits the kernel never tests. */
  datatype Access = Access(mayWrite: bool, user: bool, rest: nat)

  /** A page as a space sees it: the frame behind it, and its access. */
  datatype PageRef = PageRef(frame: nat, access: Access)

  predicate MayWrite(f: Flags) {
    f.writable || f.cow
  }

  function AccessOf(f: Flags): Access {
    Access(MayWrite(f), f.user, f.rest)
  }

  /** PML4 slot 0 is the kernel mapping, shared by all spaces. */
  predicate UserSlot(g: Graph, s: Slot) {
    s.table in g.own && s.index < ENTRIES && (g.own[s.table].path == [] ==> s.index >= 1)
  }

  predicate IsLeaf(g: Graph, s: Slot) {
    s.table in g.own && |g.own[s.table].path| == 3
  }

  predicate UserPath(p: seq<nat>) {
    IsPath(p) && p[0] >= 1
  }

  ghost predicate LabelOk(g: Graph, t: nat)
    requires t in g.own
  {
    var l := g.own[t];
    && |l.path| <= 3
    && (l.path == [] ==> l.root == t)
    && (l.path != [] ==>
          var d := |l.path| - 1;
          && l.parent in g.own
          && g.own[l.parent].root == l.root && g.own[l.parent].path == l.path[..d]
          && Slot(l.parent, l.path[d]) in g.slots && g.slots[Slot(l.parent, l.path[d])].frame == t)
  }

  ghost predicate EntryOk(g: Graph, s: Slot)
    requires s in g.slots
  {
    var e := g.slots[s];
    && UserSlot(g, s)
    && e.flags.present && !e.flags.huge
    && (!IsLeaf(g, s) ==> e.frame in g.own && Grants(e.flags)
                          && g.own[e.frame] == Label(g.own[s.table].root, g.own[s.table].path + [s.index], s.table))
    && (IsLeaf(g, s) ==> e.frame !in g.own)
  }

  ghost predicate Tree(g: Graph) {
    && (forall t {:trigger LabelOk(g, t)} :: t in g.own ==> LabelOk(g, t))
    && (forall s {:trigger EntryOk(g, s)} :: s in g.slots ==> EntryOk(g, s))
  }

  predicate SameFrame(g: Graph, s: Slot, s': Slot) {
    s in g.slots && s' in g.slots && g.slots[s'].frame == g.slots[s].frame
  }

  /** A writable page's frame has one name only, so a store through it is private. */
  ghost predicate Sole(g: Graph) {
    forall s, s' {:trigger SameFrame(g, s, s')} ::
      s in g.slots && IsLeaf(g, s) && g.slots[s].flags.writable && SameFrame(g, s, s') ==> s' == s
  }

  // ---------------------------------------------------------------- what a space sees

  function LookFrom(g: Graph, t: nat, q: seq<nat>): Option<PageRef>
    requires |q| >= 1
    decreases |q|
  {
    var s := Slot(t, q[0]);
    if s !in g.slots then None
    else if |q| == 1 then Some(PageRef(g.slots[s].frame, AccessOf(g.slots[s].flags)))
    else LookFrom(g, g.slots[s].frame, q[1..])
  }

  function Look(g: Graph, r: nat, p: seq<nat>): Option<PageRef>
    requires |p| == 4
  {
    LookFrom(g, r, p)
  }

  ghost predicate Descent(g: Graph, t: nat, q: seq<nat>) {
    && t in g.own && |q| >= 1 && |g.own[t].path| + |q| == 4
    && (forall d :: 0 <= d < |q| ==> q[d] < ENTRIES)
    && (g.own[t].path == [] ==> q[0] >= 1)
  }

  ghost predicate IsSpace(g: Graph, r: nat) {
    r in g.own && g.own[r].path == []
  }

  /** The leaf slot behind a page. */
  lemma {:induction false} LookSlot(g: Graph, t: nat, q: seq<nat>) returns (s: Slot)
    requires Tree(g) && Descent(g, t, q) && LookFrom(g, t, q).Some?
    ensures s in g.slots && IsLeaf(g, s)
    ensures g.own[s.table].root == g.own[t].root && g.own[s.table].path + [s.index] == g.own[t].path + q
    ensures LookFrom(g, t, q) == Some(PageRef(g.slots[s].frame, AccessOf(g.slots[s].flags)))
    decreases |q|
  {
    s := Slot(t, q[0]);
    assert EntryOk(g, s);
    if |q| > 1 {
      assert g.own[t].path + q == g.own[t].path + [q[0]] + q[1..];
      s := LookSlot(g, g.slots[s].frame, q[1..]);
    } else {
      assert q == [q[0]];
    }
  }

  /** Two graphs with the same slots except one show the same pages, but for those behind it. */
  lemma {:induction false} LookFrame(g: Graph, h: Graph, s0: Slot, t: nat, q: seq<nat>)
    requires Tree(g) && Descent(g, t, q) && s0.table in g.own
    requires forall s: Slot :: s.table in g.own && s != s0 ==>
      (s in h.slots <==> s in g.slots) && (s in g.slots ==> h.slots[s] == g.slots[s])
    requires !(g.own[s0.table].root == g.own[t].root && g.own[s0.table].path + [s0.index] <= g.own[t].path + q)
    ensures LookFrom(h, t, q) == LookFrom(g, t, q)
    decreases |q|
  {
    var s := Slot(t, q[0]);
    assert g.own[t].path + q == g.own[t].path + [q[0]] + q[1..];
    if s in g.slots && |q| > 1 {
      assert EntryOk(g, s);
      LookFrame(g, h, s0, g.slots[s].frame, q[1..]);
    }
  }

  /** The tables above a table lead to it. */
  lemma {:induction false} LookVia(g: Graph, t: nat, q: seq<nat>)
    requires Tree(g) && t in g.own && |q| >= 1 && |g.own[t].path| + |q| == 4
    ensures LookFrom(g, g.own[t].root, g.own[t].path + q) == LookFrom(g, t, q)
    decreases |g.own[t].path|
  {
    assert LabelOk(g, t);
    var l := g.own[t];
    if l.path == [] {
      assert l.path + q == q;
    } else {
      var d := |l.path| - 1;
      LookVia(g, l.parent, [l.path[d]] + q);
      assert l.path + q == l.path[..d] + ([l.path[d]] + q);
      assert ([l.path[d]] + q)[1..] == q;
    }
  }

  lemma {:induction false} PlaceUnique(g: Graph, t: nat, u: nat)
    requires Tree(g) && t in g.own && u in g.own
    requires g.own[t].root == g.own[u].root && g.own[t].path == g.own[u].path
    ensures t == u
    decreases |g.own[t].path|
  {
    assert LabelOk(g, t) && LabelOk(g, u);
    if g.own[t].path != [] {
      PlaceUnique(g, g.own[t].parent, g.own[u].parent);
    }
  }

  // ---------------------------------------------------------------- names

  function Names(g: Graph, f: nat): set<Slot> {
    set s | s in g.slots && g.slots[s].frame == f
  }

  /** Leaves, table links and roots that name a frame. */
  ghost function Count(g: Graph, f: nat): nat {
    |Names(g, f)| + (if IsSpace(g, f) then 1 else 0)
  }

  ghost predicate CountsDiffer(g: Graph, h: Graph, f: nat, delta: int) {
    && Count(h, f) == Count(g, f) + delta
    && (forall x :: x != f ==> Count(h, x) == Count(g, x))
  }

  function Code(s: Slot): nat
    requires s.index < ENTRIES
  {
    s.table * ENTRIES + s.index
  }

  lemma {:induction false} CodesCount(ss: set<Slot>, n: nat)
    requires forall s :: s in ss ==> s.index < ENTRIES && s.table < n
    ensures |ss| <= n * ENTRIES
  {
    var codes := set s | s in ss :: Code(s);
    CodesInjective(ss);
    forall c | c in codes ensures c in Below(n * ENTRIES) {
      var s :| s in ss && Code(s) == c;
      assert s.table * ENTRIES <= (n - 1) * ENTRIES;
    }
    SubsetSize(codes, Below(n * ENTRIES));
  }

  lemma {:induction false} CodesInjective(ss: set<Slot>)
    requires forall s :: s in ss ==> s.index < ENTRIES
    ensures |set s | s in ss :: Code(s)| == |ss|
  {
    var codes := set s | s in ss :: Code(s);
    if ss == {} {
      assert codes == {};
    } else {
      var x :| x in ss;
      CodesInjective(ss - {x});
      var fewer := set s | s in ss - {x} :: Code(s);
      assert codes == fewer + {Code(x)};
      forall s | s in ss - {x} ensures Code(s) != Code(x) {
        assert s.index == Code(s) % ENTRIES && s.table == Code(s) / ENTRIES;
        assert x.index == Code(x) % ENTRIES && x.table == Code(x) / ENTRIES;
      }
    }
  }

  /** All of memory has room for fewer names than a 32-bit counter can count. */
  lemma CountFits(g: Graph, f: nat)
    requires Tree(g) && forall t :: t in g.own ==> t < MAX_FRAMES
    ensures Count(g, f) < REF_LIMIT
  {
    forall s | s in Names(g, f) ensures s.index < ENTRIES && s.table < MAX_FRAMES {
      assert EntryOk(g, s);
    }
    CodesCount(Names(g, f), MAX_FRAMES);
  }

  // ---------------------------------------------------------------- changing the graph

  ghost predicate Unnamed(g: Graph, f: nat) {
    f !in g.own && Names(g, f) == {}
  }

  lemma CountZero(g: Graph, f: nat)
    requires Tree(g)
    ensures Count(g, f) == 0 <==> Unnamed(g, f)
  {
    if f in g.own {
      assert LabelOk(g, f);
      var l := g.own[f];
      if l.path != [] {
        assert Slot(l.parent, l.path[|l.path| - 1]) in Names(g, f);
      }
    }
  }

  ghost predicate SameLooks(g: Graph, h: Graph) {
    forall r, p :: IsSpace(g, r) && UserPath(p) ==> Look(h, r, p) == Look(g, r, p)
  }

  /** Page p of space r is the one behind leaf slot s. */
  predicate At(g: Graph, s: Slot, r: nat, p: seq<nat>)
    requires s.table in g.own
  {
    g.own[s.table].root == r && g.own[s.table].path + [s.index] == p
  }

  function AddTable(g: Graph, t: nat, i: nat, f: nat): Graph
    requires t in g.own
  {
    Graph(g.own[f := Label(g.own[t].root, g.own[t].path + [i], t)], g.slots[Slot(t, i) := Pte(f, LINK)], g.kernel)
  }

  function PutLeaf(g: Graph, s: Slot, e: Pte): Graph {
    g.(slots := g.slots[s := e])
  }

  function CutLeaf(g: Graph, s: Slot): Graph {
    g.(slots := g.slots - {s})
  }

  /** The slot that names a table below the root. */
  function ParentSlot(g: Graph, t: nat): Slot
    requires t in g.own && g.own[t].path != []
  {
    Slot(g.own[t].parent, g.own[t].path[|g.own[t].path| - 1])
  }

  function CutTable(g: Graph, t: nat): Graph
    requires t in g.own && g.own[t].path != []
  {
    Graph(g.own - {t}, g.slots - {ParentSlot(g, t)}, g.kernel)
  }

  function AddSpace(g: Graph, r: nat): Graph {
    g.(own := g.own[r := Label(r, [], r)])
  }

  function CutSpace(g: Graph, r: nat): Graph {
    g.(own := g.own - {r})
  }

  ghost predicate NoSlots(g: Graph, t: nat) {
    forall s :: s in g.slots ==> s.table != t
  }

  lemma NamesAdd(g: Graph, h: Graph, s: Slot, e: Pte)
    requires s !in g.slots && h.slots == g.slots[s := e]
    requires forall x :: x != e.frame ==> (IsSpace(h, x) <==> IsSpace(g, x))
    requires IsSpace(h, e.frame) == IsSpace(g, e.frame)
    ensures CountsDiffer(g, h, e.frame, 1)
  {
    assert Names(h, e.frame) == Names(g, e.frame) + {s};
    forall x | x != e.frame ensures Count(h, x) == Count(g, x) {
      assert Names(h, x) == Names(g, x);
    }
  }

  lemma NamesCut(g: Graph, h: Graph, s: Slot)
    requires s in g.slots && h.slots == g.slots - {s}
    requires forall x :: IsSpace(h, x) <==> IsSpace(g, x)
    ensures CountsDiffer(g, h, g.slots[s].frame, -1)
  {
    var f := g.slots[s].frame;
    assert Names(h, f) == Names(g, f) - {s};
    forall x | x != f ensures Count(h, x) == Count(g, x) {
      assert Names(h, x) == Names(g, x);
    }
  }

  /** A frame nobody names may become the table behind an empty slot. */
  ghost predicate MayAdd(g: Graph, t: nat, i: nat, f: nat) {
    && t in g.own && |g.own[t].path| < 3
    && UserSlot(g, Slot(t, i)) && Slot(t, i) !in g.slots && Unnamed(g, f)
  }

  lemma NewFrame(g: Graph, t: nat, i: nat, f: nat)
    requires Tree(g) && MayAdd(g, t, i, f)
    ensures t != f && f !in g.own
    ensures forall s :: s in g.slots ==> s.table in g.own && s.table != f && g.slots[s].frame != f
  {
    forall s | s in g.slots ensures s.table in g.own && g.slots[s].frame != f {
      assert EntryOk(g, s);
      assert s !in Names(g, f);
    }
  }

  lemma AddTableLabels(g: Graph, t: nat, i: nat, f: nat, u: nat)
    requires Tree(g) && MayAdd(g, t, i, f) && u in AddTable(g, t, i, f).own
    ensures LabelOk(AddTable(g, t, i, f), u)
  {
    NewFrame(g, t, i, f);
    assert LabelOk(g, t);
    if u != f { assert LabelOk(g, u); }
  }

  lemma AddTableEntries(g: Graph, t: nat, i: nat, f: nat, s: Slot)
    requires Tree(g) && MayAdd(g, t, i, f) && s in AddTable(g, t, i, f).slots
    ensures EntryOk(AddTable(g, t, i, f), s)
  {
    NewFrame(g, t, i, f);
    if s != Slot(t, i) { assert EntryOk(g, s); }
  }

  lemma AddTableTree(g: Graph, t: nat, i: nat, f: nat)
    requires Tree(g) && t in g.own && |g.own[t].path| < 3
    requires UserSlot(g, Slot(t, i)) && Slot(t, i) !in g.slots && Unnamed(g, f)
    ensures Tree(AddTable(g, t, i, f))
    ensures Sole(g) ==> Sole(AddTable(g, t, i, f))
    ensures CountsDiffer(g, AddTable(g, t, i, f), f, 1)
    ensures NoSlots(AddTable(g, t, i, f), f)
  {
    hide LabelOk, EntryOk, Sole;
    var h := AddTable(g, t, i, f);
    NewFrame(g, t, i, f);
    forall u | u in h.own ensures LabelOk(h, u) { AddTableLabels(g, t, i, f, u); }
    forall s | s in h.slots ensures EntryOk(h, s) { AddTableEntries(g, t, i, f, s); }
    NamesAdd(g, h, Slot(t, i), Pte(f, LINK));
    if Sole(g) { AddTableSole(g, t, i, f); }
  }

  lemma AddTableSole(g: Graph, t: nat, i: nat, f: nat)
    requires Tree(g) && Sole(g) && MayAdd(g, t, i, f)
    ensures Sole(AddTable(g, t, i, f))
  {
    var h := AddTable(g, t, i, f);
    NewFrame(g, t, i, f);
    forall s, s' | s in h.slots && IsLeaf(h, s) && h.slots[s].flags.writable && SameFrame(h, s, s') ensures s' == s {
      assert s != Slot(t, i) && s' != Slot(t, i);
      assert IsLeaf(g, s) && SameFrame(g, s, s');
    }
  }

  lemma {:induction false} AddTableInvisible(g: Graph, t: nat, i: nat, f: nat, u: nat, q: seq<nat>)
    requires Tree(g) && t in g.own && |g.own[t].path| < 3
    requires UserSlot(g, Slot(t, i)) && Slot(t, i) !in g.slots && Unnamed(g, f)
    requires Descent(g, u, q)
    ensures LookFrom(AddTable(g, t, i, f), u, q) == LookFrom(g, u, q)
    decreases |q|
  {
    var h := AddTable(g, t, i, f);
    var s := Slot(u, q[0]);
    if s == Slot(t, i) {
      AddTableTree(g, t, i, f);
      assert Slot(f, q[1]) !in h.slots;
    } else if s in g.slots && |q| > 1 {
      assert EntryOk(g, s);
      AddTableInvisible(g, t, i, f, g.slots[s].frame, q[1..]);
    }
  }

  lemma AddTableLooks(g: Graph, t: nat, i: nat, f: nat)
    requires Tree(g) && t in g.own && |g.own[t].path| < 3
    requires UserSlot(g, Slot(t, i)) && Slot(t, i) !in g.slots && Unnamed(g, f)
    ensures SameLooks(g, AddTable(g, t, i, f)) && SameLooks(AddTable(g, t, i, f), g)
  {
    forall r, p | IsSpace(g, r) && UserPath(p) ensures Look(AddTable(g, t, i, f), r, p) == Look(g, r, p) {
      AddTableInvisible(g, t, i, f, r, p);
    }
    assert forall r :: IsSpace(AddTable(g, t, i, f), r) ==> IsSpace(g, r);
  }

  /** Writing a leaf slot changes the one page behind it. */
  lemma LeafLooks(g: Graph, h: Graph, s: Slot)
    requires Tree(g) && IsLeaf(g, s) && UserSlot(g, s)
    requires h == CutLeaf(g, s) || (exists e :: h == PutLeaf(g, s, e))
    ensures forall r, p :: IsSpace(g, r) && UserPath(p) ==>
      Look(h, r, p) ==
      if At(g, s, r, p) then
        (if s in h.slots then Some(PageRef(h.slots[s].frame, AccessOf(h.slots[s].flags))) else None)
      else Look(g, r, p)
  {
    forall r, p | IsSpace(g, r) && UserPath(p)
      ensures Look(h, r, p) ==
        if At(g, s, r, p) then
          (if s in h.slots then Some(PageRef(h.slots[s].frame, AccessOf(h.slots[s].flags))) else None)
        else Look(g, r, p)
    {
      assert LabelOk(g, r);
      if At(g, s, r, p) {
        LookVia(g, s.table, [s.index]);
        LeafReached(g, h, s, s.table, [s.index]);
        assert LookFrom(h, s.table, [s.index]) == Look(h, r, p);
      } else {
        assert !(g.own[s.table].path + [s.index] <= p && g.own[s.table].root == r);
        assert g.own[r].path + p == p;
        LookFrame(g, h, s, r, p);
      }
    }
  }

  lemma {:induction false} LeafReached(g: Graph, h: Graph, s: Slot, t: nat, q: seq<nat>)
    requires Tree(g) && IsLeaf(g, s) && UserSlot(g, s)
    requires h == CutLeaf(g, s) || (exists e :: h == PutLeaf(g, s, e))
    requires t in g.own && |q| >= 1 && |g.own[t].path| + |q| == 4
    ensures LookFrom(h, g.own[t].root, g.own[t].path + q) == LookFrom(h, t, q)
    decreases |g.own[t].path|
  {
    assert LabelOk(g, t);
    var l := g.own[t];
    if l.path == [] {
      assert l.path + q == q;
    } else {
      var d := |l.path| - 1;
      LeafReached(g, h, s, l.parent, [l.path[d]] + q);
      assert l.path + q == l.path[..d] + ([l.path[d]] + q);
      assert ([l.path[d]] + q)[1..] == q;
    }
  }

  lemma LeafTree(g: Graph, h: Graph, s: Slot)
    requires Tree(g) && IsLeaf(g, s) && UserSlot(g, s)
    requires h.own == g.own
    requires forall x :: x != s ==> (x in h.slots <==> x in g.slots) && (x in g.slots ==> h.slots[x] == g.slots[x])
    requires s in h.slots ==> h.slots[s].flags.present && !h.slots[s].flags.huge && h.slots[s].frame !in g.own
    ensures Tree(h)
  {
    forall u | u in h.own ensures LabelOk(h, u) {
      assert LabelOk(g, u);
    }
    forall x | x in h.slots ensures EntryOk(h, x) {
      if x != s { assert EntryOk(g, x); }
    }
  }

  lemma CutTableTree(g: Graph, t: nat)
    requires Tree(g) && t in g.own && g.own[t].path != [] && NoSlots(g, t)
    ensures Tree(CutTable(g, t)) && (Sole(g) ==> Sole(CutTable(g, t)))
    ensures CountsDiffer(g, CutTable(g, t), t, -1)
    ensures SameLooks(g, CutTable(g, t))
  {
    var h := CutTable(g, t);
    var s := ParentSlot(g, t);
    assert LabelOk(g, t);
    assert EntryOk(g, s);
    forall u | u in h.own ensures LabelOk(h, u) {
      assert LabelOk(g, u);
    }
    forall x | x in h.slots ensures EntryOk(h, x) {
      assert EntryOk(g, x);
    }
    NamesCut(g, h, s);
    if Sole(g) {
      forall x, y | x in h.slots && IsLeaf(h, x) && h.slots[x].flags.writable && SameFrame(h, x, y) ensures y == x {
        assert IsLeaf(g, x) && SameFrame(g, x, y);
      }
    }
    forall r, p | IsSpace(g, r) && UserPath(p) ensures Look(h, r, p) == Look(g, r, p) {
      CutTableInvisible(g, t, r, p);
    }
  }

  lemma {:induction false} CutTableInvisible(g: Graph, t: nat, u: nat, q: seq<nat>)
    requires Tree(g) && t in g.own && g.own[t].path != [] && NoSlots(g, t)
    requires Descent(g, u, q)
    ensures LookFrom(CutTable(g, t), u, q) == LookFrom(g, u, q)
    decreases |q|
  {
    var s := Slot(u, q[0]);
    assert LabelOk(g, t);
    if s in g.slots {
      assert EntryOk(g, s);
      if s == ParentSlot(g, t) {
        assert Slot(t, q[1]) !in g.slots;
      } else if |q| > 1 {
        CutTableInvisible(g, t, g.slots[s].frame, q[1..]);
      }
    }
  }

  lemma AddSpaceTree(g: Graph, r: nat)
    requires Tree(g) && Unnamed(g, r)
    ensures Tree(AddSpace(g, r)) && (Sole(g) ==> Sole(AddSpace(g, r)))
    ensures CountsDiffer(g, AddSpace(g, r), r, 1)
    ensures NoSlots(AddSpace(g, r), r)
    ensures SameLooks(g, AddSpace(g, r))
    ensures forall p :: UserPath(p) ==> Look(AddSpace(g, r), r, p) == None
  {
    var h := AddSpace(g, r);
    forall s | s in g.slots ensures s.table in g.own && s.table != r && g.slots[s].frame != r {
      assert EntryOk(g, s);
      assert s !in Names(g, r);
    }
    forall u | u in h.own ensures LabelOk(h, u) {
      if u != r { assert LabelOk(g, u); }
    }
    forall s | s in h.slots ensures EntryOk(h, s) {
      assert EntryOk(g, s);
    }
    forall x ensures Names(h, x) == Names(g, x) {
    }
    if Sole(g) {
      forall x, y | x in h.slots && IsLeaf(h, x) && h.slots[x].flags.writable && SameFrame(h, x, y) ensures y == x {
        assert IsLeaf(g, x) && SameFrame(g, x, y);
      }
    }
    forall x, p | IsSpace(g, x) && UserPath(p) ensures Look(h, x, p) == Look(g, x, p) {
      SlotsDecide(g, h, x, p);
    }
  }

  lemma {:induction false} SlotsDecide(g: Graph, h: Graph, t: nat, q: seq<nat>)
    requires h.slots == g.slots && |q| >= 1
    ensures LookFrom(h, t, q) == LookFrom(g, t, q)
    decreases |q|
  {
    if |q| > 1 && Slot(t, q[0]) in g.slots {
      SlotsDecide(g, h, g.slots[Slot(t, q[0])].frame, q[1..]);
    }
  }

  lemma CutSpaceTree(g: Graph, r: nat)
    requires Tree(g) && IsSpace(g, r) && NoSlots(g, r)
    ensures Tree(CutSpace(g, r)) && (Sole(g) ==> Sole(CutSpace(g, r)))
    ensures CountsDiffer(g, CutSpace(g, r), r, -1)
    ensures forall x, p :: IsSpace(g, x) && UserPath(p) ==> Look(CutSpace(g, r), x, p) == Look(g, x, p)
  {
    var h := CutSpace(g, r);
    assert LabelOk(g, r);
    forall u | u in h.own ensures LabelOk(h, u) {
      assert LabelOk(g, u);
    }
    forall s | s in h.slots ensures EntryOk(h, s) {
      assert EntryOk(g, s);
    }
    forall x ensures Names(h, x) == Names(g, x) {
    }
    if Sole(g) {
      forall x, y | x in h.slots && IsLeaf(h, x) && h.slots[x].flags.writable && SameFrame(h, x, y) ensures y == x {
        assert IsLeaf(g, x) && SameFrame(g, x, y);
      }
    }
    forall x, p | IsSpace(g, x) && UserPath(p) ensures Look(h, x, p) == Look(g, x, p) {
      SlotsDecide(g, h, x, p);
    }
  }
}
