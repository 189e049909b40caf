/** The flags of every page after a fork and after a write fault: which bits change, and for whom. */
module PageFlags {
  import opened Common
  import opened Frames
  import opened PageTables
  import opened FrameGraph
  import opened CopyOnWrite
  import opened CowSteps
  import opened CloneProof
  import opened FaultProof

  lemma FlagsOfSlot(m: Machine, g: Graph, managed: set<nat>, x: nat, v: nat) returns (s: Slot)
    requires Inv(m, g, managed) && IsSpace(g, x) && UserPath(Path(v)) && Look(g, x, Path(v)).Some?
    ensures s in g.slots && IsLeaf(g, s) && At(g, s, x, Path(v)) && GetFlags(m, x, v) == g.slots[s].flags
    ensures Look(g, x, Path(v)) == Some(PageRef(g.slots[s].frame, AccessOf(g.slots[s].flags)))
    ensures g.slots[s].flags.present && !g.slots[s].flags.huge
  {
    s := WalkFound(m, g, x, Path(v));
    WalkUsed(m, x, v, s, 0, LINK);
    assert EntryOk(g, s);
  }

  /** A page whose leaf entry is the same in both graphs has the same flags. */
  lemma FlagsKept(m: Machine, g: Graph, n: Machine, h: Graph, managed: set<nat>, x: nat, v: nat)
    requires Inv(m, g, managed) && Inv(n, h, managed) && IsSpace(g, x) && IsSpace(h, x) && UserPath(Path(v))
    requires Look(h, x, Path(v)).Some? <==> Look(g, x, Path(v)).Some?
    requires forall t :: t in g.own ==> t in h.own && h.own[t] == g.own[t]
    requires forall s: Slot :: s in g.slots && IsLeaf(g, s) && At(g, s, x, Path(v)) ==> s in h.slots && h.slots[s] == g.slots[s]
    ensures GetFlags(n, x, v) == GetFlags(m, x, v)
  {
    if Look(g, x, Path(v)).None? {
      WalkMissed(m, g, x, v);
      WalkMissed(n, h, x, v);
    } else {
      var s := FlagsOfSlot(m, g, managed, x, v);
      var s' := FlagsOfSlot(n, h, managed, x, v);
      SameSlot(h, s, s');
    }
  }

  /** What cloning makes of a page's flags, for the source and for the clone. */
  ghost predicate SharedFlags(before: Flags, after: Flags) {
    && !after.writable
    && (after.cow <==> before.cow || before.writable)
    && after.present == before.present && after.user == before.user
    && after.huge == before.huge && after.rest == before.rest
  }

  /** After vmm_clone_address_space every user page of the source has, in the source and in the
      clone, lost PAGE_WRITABLE and gained PAGE_COW if it had been writable, and kept every other
      bit; the clone has no other page, and the flags of every other space are as before. */
  lemma CloneFlags(m: Machine, g: Graph, managed: set<nat>, kernel: Pte, src: nat, v: nat)
    requires Inv(m, g, managed) && IsSpace(g, src) && g.kernel == kernel && UserPath(Path(v))
    requires Clone(m, kernel, src).Some?
    ensures var (r, n) := Clone(m, kernel, src).value;
      && GetFlags(n, r, v) == GetFlags(n, src, v)
      && SharedFlags(GetFlags(m, src, v), GetFlags(n, src, v))
      && forall x :: IsSpace(g, x) && x != src ==> GetFlags(n, x, v) == GetFlags(m, x, v)
  {
    var (r, n) := Clone(m, kernel, src).value;
    var h := CloneCorrect(m, g, managed, kernel, src);
    if Look(g, src, Path(v)).None? {
      WalkMissed(m, g, src, v);
      WalkMissed(n, h, src, v);
      WalkMissed(n, h, r, v);
    } else {
      var s0 := FlagsOfSlot(m, g, managed, src, v);
      var s1 := FlagsOfSlot(n, h, managed, src, v);
      var s2 := FlagsOfSlot(n, h, managed, r, v);
      assert s1 != s2 && SameFrame(h, s1, s2) && SameFrame(h, s2, s1);
    }
    forall x | IsSpace(g, x) && x != src ensures GetFlags(n, x, v) == GetFlags(m, x, v) {
      FlagsKept(m, g, n, h, managed, x, v);
    }
  }

  /** A resolved write fault clears PAGE_COW and sets PAGE_WRITABLE in the flags of the page it
      was for, and changes no other bit of it and no other flags of any space. */
  lemma FaultFlags(m: Machine, g: Graph, managed: set<nat>, root: nat, v: nat, x: nat, u: nat)
    requires Inv(m, g, managed) && IsSpace(g, root) && IsSpace(g, x) && UserPath(Path(v)) && UserPath(Path(u))
    requires WriteFault(m, root, v).Resolved?
    ensures var n := WriteFault(m, root, v).m;
      GetFlags(n, x, u) ==
        if x == root && Path(u) == Path(v) then GetFlags(m, root, v).(cow := false, writable := true)
        else GetFlags(m, x, u)
  {
    var s, h := FaultCorrect(m, g, managed, root, v);
    var n := WriteFault(m, root, v).m;
    if x == root && Path(u) == Path(v) {
      Retry(n, h, managed, root, u, s);
    } else {
      assert LabelOk(g, x) && g.own[x].path == [];
      LeafLooks(g, h, s);
      FlagsKept(m, g, n, h, managed, x, u);
    }
  }
}
