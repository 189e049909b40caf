/** Whole runs: the lazy, copy-on-write kernel gives every process exactly what it would see
    if fork copied every page at once. */
module ForkRefinement {
  import opened Common
  import opened Frames
  import opened PageTables
  import opened FrameGraph
  import opened CopyOnWrite
  import opened CowSteps
  import opened CloneProof
  import opened DestroyProof
  import opened FaultProof
  import opened FreshPage

  datatype Op =
    | Spawn(pid: nat)                             // vmm_create_address_space
    | Grow(pid: nat, v: nat, flags: Flags)        // a fresh page, as elf_load maps one
    | Fork(parent: nat, child: nat)               // vmm_clone_address_space
    | Write(pid: nat, v: nat, byte: int)          // a user store, with its page fault
    | Read(pid: nat, v: nat)                      // a user load
    | Exit(pid: nat)                              // vmm_destroy_address_space

  datatype Out = Done | Loaded(byte: int) | Segfault | Refused

  // ---------------------------------------------------------------- the kernel

  /** Physical memory, and the PML4 of each process. */
  datatype System = System(m: Machine, roots: map<nat, nat>)

  /** One operation of the kernel. An operation on a process that is not there (or already
      is), on a kernel address, or mapping a page over another is refused; None means that a
      frame was needed and there was none. */
  function Step(s: System, kernel: Pte, op: Op): Option<(System, Out)> {
    match op
    case Spawn(pid) =>
      if pid in s.roots then Some((s, Refused))
      else
        var (r, n) := CreateSpace(s.m, kernel);
        if r.None? then None else Some((System(n, s.roots[pid := r.value]), Done))
    case Grow(pid, v, flags) =>
      if pid !in s.roots || !UserPath(Path(v)) || flags.huge || GetFlags(s.m, s.roots[pid], v).present then
        Some((s, Refused))
      else if 1 + Missing(s.m, s.roots[pid], Path(v)[..3]) > |s.m.pool.free| then None
      else
        var n := MapFresh(s.m, s.roots[pid], v, flags);
        if n.None? then None else Some((s.(m := n.value), Done))
    case Fork(parent, child) =>
      if parent !in s.roots || child in s.roots then Some((s, Refused))
      else
        var c := Clone(s.m, kernel, s.roots[parent]);
        if c.None? then None else Some((System(c.value.1, s.roots[child := c.value.0]), Done))
    case Write(pid, v, b) =>
      if pid !in s.roots || !UserPath(Path(v)) then Some((s, Refused))
      else
        (match Store(s.m, s.roots[pid], v, b)
         case Stored(n) => Some((s.(m := n), Done))
         case Killed(n) => Some((s.(m := n), Segfault))
         case NoMemory => None)
    case Read(pid, v) =>
      if pid !in s.roots || !UserPath(Path(v)) then Some((s, Refused)) else Some((s, Load(s.m, s.roots[pid], v)))
    case Exit(pid) =>
      if pid !in s.roots then Some((s, Refused))
      else Some((System(Destroy(s.m, s.roots[pid]), s.roots - {pid}), Done))
  }

  /** A user load through the page tables, where the processor lets user code through. */
  function Load(m: Machine, root: nat, v: nat): Out {
    var f := GetPhys(m, root, v) / PAGE_SIZE;
    if Effective(m, root, Path(v)).user && f in m.mem && m.mem[f].Data? && v % PAGE_SIZE < |m.mem[f].bytes| then
      Loaded(m.mem[f].bytes[v % PAGE_SIZE])
    else Segfault
  }

  // ---------------------------------------------------------------- the eager specification

  /** Every process has its own pages, by value; nothing is shared. */
  type Procs = map<nat, map<seq<nat>, Page>>

  function EagerStep(e: Procs, op: Op): (Procs, Out) {
    match op
    case Spawn(pid) => if pid in e then (e, Refused) else (e[pid := map[]], Done)
    case Grow(pid, v, flags) =>
      if pid !in e || !UserPath(Path(v)) || flags.huge || Path(v) in e[pid] then (e, Refused)
      else (e[pid := e[pid][Path(v) := Page(ZeroPage().bytes, AccessOf(flags))]], Done)
    case Fork(parent, child) =>
      if parent !in e || child in e then (e, Refused) else (e[child := e[parent]], Done)
    case Write(pid, v, b) =>
      if pid !in e || !UserPath(Path(v)) then (e, Refused)
      else if Path(v) !in e[pid] || !e[pid][Path(v)].access.mayWrite || !e[pid][Path(v)].access.user then (e, Segfault)
      else (e[pid := e[pid][Path(v) := Poked(e[pid][Path(v)], v % PAGE_SIZE, b)]], Done)
    case Read(pid, v) =>
      if pid !in e || !UserPath(Path(v)) then (e, Refused)
      else if Path(v) in e[pid] && e[pid][Path(v)].access.user && v % PAGE_SIZE < |e[pid][Path(v)].bytes| then
        (e, Loaded(e[pid][Path(v)].bytes[v % PAGE_SIZE]))
      else (e, Segfault)
    case Exit(pid) => if pid !in e then (e, Refused) else (e - {pid}, Done)
  }

  // ---------------------------------------------------------------- the refinement

  ghost predicate PageAgrees(s: System, g: Graph, e: Procs, pid: nat, p: seq<nat>)
    requires pid in s.roots && pid in e && |p| == 4
  {
    PageAt(s.m, g, s.roots[pid], p) == if p in e[pid] then Some(e[pid][p]) else None
  }

  /** Processes and address spaces correspond one to one. */
  ghost predicate RootsOk(roots: map<nat, nat>, g: Graph) {
    && (forall pid :: pid in roots ==> IsSpace(g, roots[pid]))
    && (forall r :: IsSpace(g, r) ==> exists pid :: pid in roots && roots[pid] == r)
    && (forall i, j :: i in roots && j in roots && roots[i] == roots[j] ==> i == j)
  }

  lemma NewRoot(roots: map<nat, nat>, g: Graph, h: Graph, pid: nat, r: nat)
    requires RootsOk(roots, g) && pid !in roots && !IsSpace(g, r)
    requires forall x :: IsSpace(h, x) <==> IsSpace(g, x) || x == r
    ensures RootsOk(roots[pid := r], h)
  {
    var roots' := roots[pid := r];
    forall x | IsSpace(h, x) ensures exists i :: i in roots' && roots'[i] == x {
      if x == r {
        assert pid in roots' && roots'[pid] == x;
      } else {
        var i :| i in roots && roots[i] == x;
        assert i in roots' && roots'[i] == x;
      }
    }
  }

  lemma LostRoot(roots: map<nat, nat>, g: Graph, h: Graph, pid: nat)
    requires RootsOk(roots, g) && pid in roots
    requires forall x :: IsSpace(h, x) <==> IsSpace(g, x) && x != roots[pid]
    ensures RootsOk(roots - {pid}, h)
  {
    var roots' := roots - {pid};
    forall x | IsSpace(h, x) ensures exists i :: i in roots' && roots'[i] == x {
      var i :| i in roots && roots[i] == x;
      assert i in roots' && roots'[i] == x;
    }
  }

  /** The processes are the address spaces, and each sees its own eager pages. */
  ghost predicate Agrees(s: System, g: Graph, managed: set<nat>, e: Procs) {
    && Inv(s.m, g, managed)
    && s.roots.Keys == e.Keys
    && RootsOk(s.roots, g)
    && (forall pid, p :: pid in s.roots && UserPath(p) ==> PageAgrees(s, g, e, pid, p))
  }

  lemma FlagsTellMapped(m: Machine, g: Graph, managed: set<nat>, root: nat, v: nat)
    requires Inv(m, g, managed) && IsSpace(g, root) && UserPath(Path(v))
    ensures GetFlags(m, root, v).present <==> PageAt(m, g, root, Path(v)).Some?
    ensures Look(g, root, Path(v)).Some? <==> PageAt(m, g, root, Path(v)).Some?
    ensures PageAt(m, g, root, Path(v)).None? ==> Load(m, root, v) == Segfault
    ensures PageAt(m, g, root, Path(v)).Some? ==>
      var page := PageAt(m, g, root, Path(v)).value;
      && |page.bytes| == PAGE_SIZE && page.access == Look(g, root, Path(v)).value.access
      && Load(m, root, v) == if page.access.user then Loaded(page.bytes[v % PAGE_SIZE]) else Segfault
  {
    if Look(g, root, Path(v)).None? {
      WalkMissed(m, g, root, v);
    } else {
      var s := WalkFound(m, g, root, Path(v));
      LeafFrameIsPage(m, g, managed, s);
      assert EntryOk(g, s);
      WalkUsed(m, root, v, s, 0, LINK);
    }
  }

  lemma SpawnAgrees(s: System, g: Graph, managed: set<nat>, e: Procs, kernel: Pte, pid: nat) returns (h: Graph)
    requires Agrees(s, g, managed, e) && g.kernel == kernel && Step(s, kernel, Spawn(pid)).Some?
    ensures EagerStep(e, Spawn(pid)).1 == Step(s, kernel, Spawn(pid)).value.1
    ensures h.kernel == kernel && Agrees(Step(s, kernel, Spawn(pid)).value.0, h, managed, EagerStep(e, Spawn(pid)).0)
  {
    h := g;
    if pid !in s.roots {
      CreateStep(s.m, g, managed, kernel);
      var (r, n) := CreateSpace(s.m, kernel);
      h := AddSpace(g, r.value);
      AddSpaceTree(g, r.value);
      var s', e' := System(n, s.roots[pid := r.value]), e[pid := map[]];
      forall x, p | x in s'.roots && UserPath(p) ensures PageAgrees(s', h, e', x, p) {
        if x != pid {
          assert PageAgrees(s, g, e, x, p);
          PageKept(s.m, g, managed, n, h, s.roots[x], p);
        }
      }
      NewRoot(s.roots, g, h, pid, r.value);
    }
  }

  /** A page whose look and bytes are kept is kept. */
  lemma PageKept(m: Machine, g: Graph, managed: set<nat>, n: Machine, h: Graph, r: nat, p: seq<nat>)
    requires Inv(m, g, managed) && IsSpace(g, r) && UserPath(p) && KeepsPages(m, n, g)
    requires Look(h, r, p) == Look(g, r, p)
    ensures PageAt(n, h, r, p) == PageAt(m, g, r, p)
  {
    if Look(g, r, p).Some? {
      var y := LookSlot(g, r, p);
    }
  }

  lemma ForkAgrees(s: System, g: Graph, managed: set<nat>, e: Procs, kernel: Pte, parent: nat, child: nat)
      returns (h: Graph)
    requires Agrees(s, g, managed, e) && g.kernel == kernel && Step(s, kernel, Fork(parent, child)).Some?
    ensures EagerStep(e, Fork(parent, child)).1 == Step(s, kernel, Fork(parent, child)).value.1
    ensures h.kernel == kernel && Agrees(Step(s, kernel, Fork(parent, child)).value.0, h, managed, EagerStep(e, Fork(parent, child)).0)
  {
    h := g;
    if parent in s.roots && child !in s.roots {
      var src := s.roots[parent];
      h := CloneCorrect(s.m, g, managed, kernel, src);
      var (r, n) := Clone(s.m, kernel, src).value;
      var s', e' := System(n, s.roots[child := r]), e[child := e[parent]];
      forall x, p | x in s'.roots && UserPath(p) ensures PageAgrees(s', h, e', x, p) {
        var y := if x == child then parent else x;
        assert PageAgrees(s, g, e, y, p);
        ClonedPage(s.m, g, managed, src, r, n, h, s.roots[y], s'.roots[x], p);
      }
      NewRoot(s.roots, g, h, child, r);
    }
  }

  lemma ClonedPage(m: Machine, g: Graph, managed: set<nat>, src: nat, r: nat, n: Machine, h: Graph,
                   x: nat, x': nat, p: seq<nat>)
    requires Inv(m, g, managed) && Cloned(m, g, src, r, n, h) && IsSpace(g, x) && UserPath(p)
    requires x' == x || (x == src && x' == r)
    ensures PageAt(n, h, x', p) == PageAt(m, g, x, p)
  {
    if Look(g, x, p).Some? {
      var y := LookSlot(g, x, p);
    }
  }

  lemma GrowAgrees(s: System, g: Graph, managed: set<nat>, e: Procs, kernel: Pte, pid: nat, v: nat, flags: Flags)
      returns (h: Graph)
    requires Agrees(s, g, managed, e) && g.kernel == kernel && Step(s, kernel, Grow(pid, v, flags)).Some?
    ensures EagerStep(e, Grow(pid, v, flags)).1 == Step(s, kernel, Grow(pid, v, flags)).value.1
    ensures h.kernel == kernel && Agrees(Step(s, kernel, Grow(pid, v, flags)).value.0, h, managed, EagerStep(e, Grow(pid, v, flags)).0)
  {
    h := g;
    if pid in s.roots && UserPath(Path(v)) && !flags.huge {
      var root := s.roots[pid];
      assert PageAgrees(s, g, e, pid, Path(v));
      FlagsTellMapped(s.m, g, managed, root, v);
      if !GetFlags(s.m, root, v).present {
        h := FreshCorrect(s.m, g, managed, root, v, flags);
        var s', e' := Step(s, kernel, Grow(pid, v, flags)).value.0, EagerStep(e, Grow(pid, v, flags)).0;
        forall x, p | x in s'.roots && UserPath(p) ensures PageAgrees(s', h, e', x, p) {
          assert PageAgrees(s, g, e, x, p);
        }
      }
    }
  }

  lemma WriteAgrees(s: System, g: Graph, managed: set<nat>, e: Procs, kernel: Pte, pid: nat, v: nat, b: int)
      returns (h: Graph)
    requires Agrees(s, g, managed, e) && g.kernel == kernel && Step(s, kernel, Write(pid, v, b)).Some?
    ensures EagerStep(e, Write(pid, v, b)).1 == Step(s, kernel, Write(pid, v, b)).value.1
    ensures h.kernel == kernel && Agrees(Step(s, kernel, Write(pid, v, b)).value.0, h, managed, EagerStep(e, Write(pid, v, b)).0)
  {
    h := g;
    if pid in s.roots && UserPath(Path(v)) {
      var root := s.roots[pid];
      assert PageAgrees(s, g, e, pid, Path(v));
      FlagsTellMapped(s.m, g, managed, root, v);
      var h' := StoreCorrect(s.m, g, managed, root, v, b);
      if !Store(s.m, root, v, b).NoMemory? {
        h := h';
        var n := Store(s.m, root, v, b).m;
        var s', e' := s.(m := n), EagerStep(e, Write(pid, v, b)).0;
        forall x, p | x in s'.roots && UserPath(p) ensures PageAgrees(s', h, e', x, p) {
          assert PageAgrees(s, g, e, x, p);
        }
      }
    }
  }

  lemma ReadAgrees(s: System, g: Graph, managed: set<nat>, e: Procs, kernel: Pte, pid: nat, v: nat)
    requires Agrees(s, g, managed, e)
    ensures Step(s, kernel, Read(pid, v)) == Some((s, EagerStep(e, Read(pid, v)).1))
    ensures EagerStep(e, Read(pid, v)).0 == e
  {
    if pid in s.roots && UserPath(Path(v)) {
      assert PageAgrees(s, g, e, pid, Path(v));
      FlagsTellMapped(s.m, g, managed, s.roots[pid], v);
    }
  }

  lemma ExitAgrees(s: System, g: Graph, managed: set<nat>, e: Procs, kernel: Pte, pid: nat) returns (h: Graph)
    requires Agrees(s, g, managed, e) && g.kernel == kernel
    ensures Step(s, kernel, Exit(pid)).Some?
    ensures EagerStep(e, Exit(pid)).1 == Step(s, kernel, Exit(pid)).value.1
    ensures h.kernel == kernel && Agrees(Step(s, kernel, Exit(pid)).value.0, h, managed, EagerStep(e, Exit(pid)).0)
  {
    h := g;
    if pid in s.roots {
      var root := s.roots[pid];
      h := DestroyCorrect(s.m, g, managed, root);
      var s', e' := System(Destroy(s.m, root), s.roots - {pid}), e - {pid};
      forall x, p | x in s'.roots && UserPath(p) ensures PageAgrees(s', h, e', x, p) {
        assert PageAgrees(s, g, e, x, p);
      }
      LostRoot(s.roots, g, h, pid);
    }
  }

  lemma StepAgrees(s: System, g: Graph, managed: set<nat>, e: Procs, kernel: Pte, op: Op) returns (h: Graph)
    requires Agrees(s, g, managed, e) && g.kernel == kernel && Step(s, kernel, op).Some?
    ensures EagerStep(e, op).1 == Step(s, kernel, op).value.1
    ensures h.kernel == kernel && Agrees(Step(s, kernel, op).value.0, h, managed, EagerStep(e, op).0)
  {
    match op
    case Spawn(pid) => h := SpawnAgrees(s, g, managed, e, kernel, pid);
    case Grow(pid, v, flags) => h := GrowAgrees(s, g, managed, e, kernel, pid, v, flags);
    case Fork(parent, child) => h := ForkAgrees(s, g, managed, e, kernel, parent, child);
    case Write(pid, v, b) => h := WriteAgrees(s, g, managed, e, kernel, pid, v, b);
    case Read(pid, v) => ReadAgrees(s, g, managed, e, kernel, pid, v); h := g;
    case Exit(pid) => h := ExitAgrees(s, g, managed, e, kernel, pid);
  }

  // ---------------------------------------------------------------- runs

  function Run(s: System, kernel: Pte, ops: seq<Op>): Option<(System, seq<Out>)>
    decreases |ops|
  {
    if ops == [] then Some((s, []))
    else
      match Step(s, kernel, ops[0])
      case None => None
      case Some((s1, out)) =>
        match Run(s1, kernel, ops[1..])
        case None => None
        case Some((s2, outs)) => Some((s2, [out] + outs))
  }

  function EagerRun(e: Procs, ops: seq<Op>): (Procs, seq<Out>)
    decreases |ops|
  {
    if ops == [] then (e, [])
    else
      var (e1, out) := EagerStep(e, ops[0]);
      var (e2, outs) := EagerRun(e1, ops[1..]);
      (e2, [out] + outs)
  }

  /** Copy-on-write refines eager copying: over every run that does not run out of frames,
      each load, fault and refusal is the one an eagerly copying kernel would give, and the
      frame counts are exact at the end. */
  lemma {:induction false} CopyOnWriteRefinesEagerCopy(s: System, g: Graph, managed: set<nat>, e: Procs, kernel: Pte,
                                                       ops: seq<Op>) returns (h: Graph)
    requires Agrees(s, g, managed, e) && g.kernel == kernel && Run(s, kernel, ops).Some?
    ensures Run(s, kernel, ops).value.1 == EagerRun(e, ops).1
    ensures h.kernel == kernel && Agrees(Run(s, kernel, ops).value.0, h, managed, EagerRun(e, ops).0)
    decreases |ops|
  {
    h := g;
    if ops != [] {
      var (s1, out) := Step(s, kernel, ops[0]).value;
      var g1 := StepAgrees(s, g, managed, e, kernel, ops[0]);
      h := CopyOnWriteRefinesEagerCopy(s1, g1, managed, EagerStep(e, ops[0]).0, kernel, ops[1..]);
    }
  }

  /** After any run the tables on the way to a user page take no right away: what the processor
      grants a process at a user address is what the flags of its page say, and nothing where it
      has no page. */
  lemma {:induction false} RightsAreTheFlags(s: System, g: Graph, managed: set<nat>, e: Procs, kernel: Pte,
                                             ops: seq<Op>, pid: nat, v: nat)
    requires Agrees(s, g, managed, e) && g.kernel == kernel && Run(s, kernel, ops).Some?
    requires pid in Run(s, kernel, ops).value.0.roots && UserPath(Path(v))
    ensures var t := Run(s, kernel, ops).value.0;
      var flags := GetFlags(t.m, t.roots[pid], v);
      Effective(t.m, t.roots[pid], Path(v)) == Rights(flags.present && flags.writable, flags.present && flags.user)
  {
    var h := CopyOnWriteRefinesEagerCopy(s, g, managed, e, kernel, ops);
    var t := Run(s, kernel, ops).value.0;
    if Look(h, t.roots[pid], Path(v)).None? {
      WalkMissed(t.m, h, t.roots[pid], v);
    } else {
      FlagsFound(t.m, h, managed, t.roots[pid], v);
    }
  }

  /** A machine with an untouched pool and no processes is a start state. */
  lemma BootAgrees(m: Machine, kernel: Pte) returns (g: Graph, managed: set<nat>)
    requires Wf(m.pool) && forall f :: 0 <= f < MAX_FRAMES ==> m.pool.refs[f] == 0
    ensures Agrees(System(m, map[]), g, managed, map[])
    ensures managed == Elements(m.pool.free) && g.kernel == kernel
  {
    g, managed := Graph(map[], map[], kernel), Elements(m.pool.free);
    forall f ensures FrameBalanced(g, m.pool, managed, f) {
      assert Names(g, f) == {};
    }
  }

  // ---------------------------------------------------------------- conservation

  /** The pool's view of two graphs with the same names is the same. */
  lemma SameNamesSamePool(g: Graph, h: Graph, p: Pool, q: Pool, managed: set<nat>)
    requires Balanced(g, p, managed) && Balanced(h, q, managed)
    requires forall f :: Count(h, f) == Count(g, f)
    ensures forall f :: f in managed ==> RefOf(q, f) == RefOf(p, f)
    ensures Elements(q.free) == Elements(p.free)
  {
    forall f ensures f in managed ==> RefOf(q, f) == RefOf(p, f)
             ensures f in q.free <==> f in p.free {
      assert FrameBalanced(g, p, managed, f) && FrameBalanced(h, q, managed, f);
    }
  }

  /** Cloning a space and destroying the clone restores every reference count and the set of
      free frames, whatever was shared in between, and no space sees a change. */
  lemma CloneThenDestroy(m: Machine, g: Graph, managed: set<nat>, kernel: Pte, src: nat) returns (h2: Graph)
    requires Inv(m, g, managed) && IsSpace(g, src) && g.kernel == kernel && Clone(m, kernel, src).Some?
    ensures var (r, n) := Clone(m, kernel, src).value;
      && (forall f :: f in managed ==> RefOf(Destroy(n, r).pool, f) == RefOf(m.pool, f))
      && Elements(Destroy(n, r).pool.free) == Elements(m.pool.free)
      && Inv(Destroy(n, r), h2, managed) && SamePages(m, g, Destroy(n, r), h2)
  {
    var (r, n) := Clone(m, kernel, src).value;
    var h1 := CloneCorrect(m, g, managed, kernel, src);
    h2 := DestroyCorrect(n, h1, managed, r);
    var n2 := Destroy(n, r);
    forall s | s in h2.slots ensures s in g.slots {
    }
    forall f ensures Count(h2, f) == Count(g, f) {
      assert Names(h2, f) == Names(g, f);
    }
    SameNamesSamePool(g, h2, m.pool, n2.pool, managed);
    forall x, q | IsSpace(g, x) && UserPath(q) ensures PageAt(n2, h2, x, q) == PageAt(m, g, x, q) {
      ClonedPage(m, g, managed, src, r, n, h1, x, x, q);
    }
  }

  /** When the last process is gone every managed frame is free again. */
  lemma NothingLeaks(s: System, g: Graph, managed: set<nat>, e: Procs)
    requires Agrees(s, g, managed, e) && s.roots == map[]
    ensures Elements(s.m.pool.free) == managed
  {
    forall t ensures t !in g.own {
      if t in g.own { RootOwned(g, t); }
    }
    forall x ensures x !in g.slots {
      assert x in g.slots ==> EntryOk(g, x);
    }
    forall f ensures f in s.m.pool.free <==> f in managed {
      assert FrameBalanced(g, s.m.pool, managed, f);
      assert Names(g, f) == {};
    }
  }

  // ---------------------------------------------------------------- the edge of isolation

  predicate InSlotZero(v: nat) {
    Path(v)[0] == 0
  }

  lemma {:induction false} SameWalk(m: Machine, a: nat, b: nat, v: nat)
    requires Ent(m, a, 0) == Ent(m, b, 0) && InSlotZero(v)
    ensures GetFlags(m, a, v) == GetFlags(m, b, v) && GetPhys(m, a, v) == GetPhys(m, b, v)
    ensures Effective(m, a, Path(v)) == Effective(m, b, Path(v)) && Load(m, a, v) == Load(m, b, v)
  {
  }

  lemma {:induction false} SameRights(m: Machine, n: Machine, t: nat, q: seq<nat>)
    requires |q| >= 1 && forall u, i :: Ent(n, u, i) == Ent(m, u, i)
    ensures Effective(n, t, q) == Effective(m, t, q)
    decreases |q|
  {
    if |q| > 1 { SameRights(m, n, Ent(m, t, q[0]).frame, q[1..]); }
  }

  lemma {:induction false} PokeKeepsTables(m: Machine, f: nat, off: nat, b: int, root: nat, v: nat)
    ensures var n := PokeByte(m, f, off, b);
      && (forall t, i :: Ent(n, t, i) == Ent(m, t, i))
      && GetFlags(n, root, v) == GetFlags(m, root, v) && GetPhys(n, root, v) == GetPhys(m, root, v)
      && Effective(n, root, Path(v)) == Effective(m, root, Path(v))
  {
    SameRights(m, PokeByte(m, f, off, b), root, Path(v));
    assert forall t, i :: Ent(PokeByte(m, f, off, b), t, i) == Ent(m, t, i);
  }

  /** All processes have the same pages in slot 0, after any run: what one stores there
      through a writable page, every other one loads. */
  lemma {:induction false} SlotZeroIsShared(s: System, g: Graph, managed: set<nat>, e: Procs, kernel: Pte, ops: seq<Op>,
                         a: nat, b: nat, v: nat, byte: int)
    requires Agrees(s, g, managed, e) && g.kernel == kernel && Run(s, kernel, ops).Some?
    requires var t := Run(s, kernel, ops).value.0; a in t.roots && b in t.roots && InSlotZero(v)
    ensures var t := Run(s, kernel, ops).value.0;
      && GetFlags(t.m, t.roots[a], v) == GetFlags(t.m, t.roots[b], v)
      && GetPhys(t.m, t.roots[a], v) == GetPhys(t.m, t.roots[b], v)
      && Load(t.m, t.roots[a], v) == Load(t.m, t.roots[b], v)
      && (Load(t.m, t.roots[a], v).Loaded? && MayStore(t.m, t.roots[a], v) ==>
            && Store(t.m, t.roots[a], v, byte).Stored?
            && Load(Store(t.m, t.roots[a], v, byte).m, t.roots[b], v) == Loaded(byte))
  {
    var h := CopyOnWriteRefinesEagerCopy(s, g, managed, e, kernel, ops);
    var t := Run(s, kernel, ops).value.0;
    var x, y := t.roots[a], t.roots[b];
    assert KernelAt(t.m, h, x) && KernelAt(t.m, h, y);
    SameWalk(t.m, x, y, v);
    PokeKeepsTables(t.m, GetPhys(t.m, x, v) / PAGE_SIZE, v % PAGE_SIZE, byte, y, v);
  }

  /** Everywhere else a store is private: no other process loads anything new. */
  lemma UserStoreIsPrivate(s: System, g: Graph, managed: set<nat>, e: Procs, a: nat, b: nat, v: nat, byte: int, u: nat)
    requires Agrees(s, g, managed, e) && a in s.roots && b in s.roots && a != b
    requires UserPath(Path(v)) && UserPath(Path(u)) && Store(s.m, s.roots[a], v, byte).Stored?
    ensures Load(Store(s.m, s.roots[a], v, byte).m, s.roots[b], u) == Load(s.m, s.roots[b], u)
  {
    var h := StoreCorrect(s.m, g, managed, s.roots[a], v, byte);
    var n := Store(s.m, s.roots[a], v, byte).m;
    FlagsTellMapped(s.m, g, managed, s.roots[b], u);
    FlagsTellMapped(n, h, managed, s.roots[b], u);
  }
}
