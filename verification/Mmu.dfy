/** The memory manager as the kernel runs it: physical memory and the frame pool changed in
    place by loops (src/kernel/vmm.c, src/kernel/idt.c). Every method is tied to the function
    of the same operation, about which the other modules prove what it is for. */
module MemoryManager {
  import opened Common
  import opened Frames
  import opened PageTables
  import opened CopyOnWrite
  import opened RangeMapping

  class Mmu {
    var mem: map<nat, Content>
    const pool: FramePool

    ghost predicate Valid()
      reads this, pool, pool.bitmap, pool.stack, pool.refs
    {
      pool.Valid() && pool.Aligned()
    }

    ghost function State(): Machine
      requires -1 <= pool.top < pool.stack.Length
      reads this, pool, pool.stack, pool.refs
    {
      Machine(mem, pool.State())
    }

    constructor (pool: FramePool, mem: map<nat, Content>)
      requires pool.Valid() && pool.Aligned()
      ensures Valid() && this.pool == pool && State() == Machine(mem, pool.State())
    {
      this.pool := pool;
      this.mem := mem;
    }

    function Entry(t: nat, i: nat): Pte
      reads this
    {
      if t in mem && mem[t].Table? && |mem[t].entries| == ENTRIES && i < ENTRIES then mem[t].entries[i] else EMPTY
    }

    method SetEntry(t: nat, i: nat, e: Pte)
      requires Valid()
      modifies this`mem
      ensures Valid() && State() == SetEnt(old(State()), t, i, e)
    {
      if t in mem && mem[t].Table? && |mem[t].entries| == ENTRIES && i < ENTRIES {
        mem := mem[t := Table(mem[t].entries[i := e])];
      }
    }

    /** alloc_zeroed_table. */
    method AllocTable() returns (r: Option<nat>)
      requires Valid()
      modifies this`mem, pool`top, pool.bitmap, pool.refs
      ensures Valid() && State() == NewTable(old(State())).1 && r == NewTable(old(State())).0
    {
      var addr := pool.AllocFrame();
      if addr.None? {
        return None;
      }
      var entries: seq<Pte> := [];
      while |entries| < ENTRIES
        invariant |entries| <= ENTRIES
        invariant forall k :: 0 <= k < |entries| ==> entries[k] == EMPTY
      {
        entries := entries + [EMPTY];
      }
      assert Table(entries) == ZeroTable();
      mem := mem[addr.value / PAGE_SIZE := Table(entries)];
      r := Some(addr.value / PAGE_SIZE);
    }

    /** ensure_next_table, without interference. */
    method EnsureNextTable(t: nat, i: nat) returns (r: Option<nat>)
      requires Valid()
      modifies this`mem, pool`top, pool.bitmap, pool.refs
      ensures Valid() && State() == EnsureNext(old(State()), t, i).1 && r == EnsureNext(old(State()), t, i).0
      ensures r.Some? && !old(Entry(t, i)).flags.present && IsTable(old(State()), t) && i < ENTRIES && r.value != t ==>
        Entry(t, i) == Pte(r.value, Flags(true, true, true, false, false, 0))
    {
      if Entry(t, i).flags.present {
        return Some(Entry(t, i).frame);
      }
      r := AllocTable();
      if r.Some? {
        SetEntry(t, i, Pte(r.value, LINK));
      }
    }

    /** vmm_create_address_space. */
    method CreateAddressSpace(kernel: Pte) returns (r: Option<nat>)
      requires Valid()
      modifies this`mem, pool`top, pool.bitmap, pool.refs
      ensures Valid() && State() == CreateSpace(old(State()), kernel).1 && r == CreateSpace(old(State()), kernel).0
    {
      r := AllocTable();
      if r.Some? {
        SetEntry(r.value, 0, kernel);
      }
    }

    /** vmm_map. */
    method MapPage(root: nat, v: nat, phys: nat, flags: Flags)
      requires Valid()
      modifies this`mem, pool`top, pool.bitmap, pool.refs
      ensures Valid() && State() == Map(old(State()), root, v, phys, flags)
    {
      var p := Path(v);
      var pdpt := EnsureNextTable(root, p[0]);
      if pdpt.None? { return; }
      var pd := EnsureNextTable(pdpt.value, p[1]);
      if pd.None? { return; }
      if flags.huge {
        SetEntry(pd.value, p[2], Pte(phys / HUGE_SIZE * ENTRIES, flags.(present := true)));
        return;
      }
      var pt := EnsureNextTable(pd.value, p[2]);
      if pt.None? { return; }
      SetEntry(pt.value, p[3], Pte(phys / PAGE_SIZE, flags.(present := true)));
    }

    /** vmm_map_range. */
    method MapRangeOf(root: nat, virt: nat, phys: nat, size: nat, flags: Flags)
      requires Valid()
      modifies this`mem, pool`top, pool.bitmap, pool.refs
      ensures Valid() && State() == MapRange(old(State()), root, virt, phys, size, flags, 0)
    {
      var i := 0;
      ghost var target := MapRange(State(), root, virt, phys, size, flags, i);
      while i < size
        invariant Valid()
        invariant MapRange(State(), root, virt, phys, size, flags, i) == target
        decreases size - i
      {
        i := RangeTurn(root, virt, phys, size, flags, i);
      }
    }

    /** One turn of that loop leaves the rest of it to reach the same state. */
    method RangeTurn(root: nat, virt: nat, phys: nat, size: nat, flags: Flags, i: nat) returns (next: nat)
      requires Valid() && i < size
      modifies this`mem, pool`top, pool.bitmap, pool.refs
      ensures Valid() && next > i
      ensures MapRange(State(), root, virt, phys, size, flags, next) == MapRange(old(State()), root, virt, phys, size, flags, i)
    {
      ghost var was := State();
      next := RangeStep(root, virt, phys, size, flags, i);
      MapRangeStep(was, State(), root, virt, phys, size, flags, i);
    }

    /** The body of that loop. */
    method RangeStep(root: nat, virt: nat, phys: nat, size: nat, flags: Flags, i: nat) returns (next: nat)
      requires Valid() && i < size
      modifies this`mem, pool`top, pool.bitmap, pool.refs
      ensures Valid() && next == i + StepSize(virt, phys, size, i)
      ensures State() == Map(old(State()), root, virt + i, phys + i, StepFlags(virt, phys, size, flags, i))
    {
      if (virt + i) % HUGE_SIZE == 0 && (phys + i) % HUGE_SIZE == 0 && size - i >= HUGE_SIZE {
        MapPage(root, virt + i, phys + i, flags.(huge := true));
        next := i + HUGE_SIZE;
      } else {
        MapPage(root, virt + i, phys + i, flags);
        next := i + PAGE_SIZE;
      }
    }

    /** vmm_unmap. */
    method UnmapPage(root: nat, v: nat)
      requires Valid()
      modifies this`mem
      ensures Valid() && State() == Unmap(old(State()), root, v)
    {
      var p := Path(v);
      if !Entry(root, p[0]).flags.present { return; }
      var pdpt := Entry(root, p[0]).frame;
      if !Entry(pdpt, p[1]).flags.present { return; }
      var pd := Entry(pdpt, p[1]).frame;
      if Entry(pd, p[2]).flags.huge {
        SetEntry(pd, p[2], EMPTY);
      } else if Entry(pd, p[2]).flags.present {
        SetEntry(Entry(pd, p[2]).frame, p[3], EMPTY);
      }
    }

    /** vmm_get_phys. */
    method GetPhysOf(root: nat, v: nat) returns (phys: nat)
      requires Valid()
      ensures phys == GetPhys(State(), root, v)
    {
      var p := Path(v);
      if !Entry(root, p[0]).flags.present { return 0; }
      var pdpt := Entry(root, p[0]).frame;
      if !Entry(pdpt, p[1]).flags.present { return 0; }
      var e := Entry(Entry(pdpt, p[1]).frame, p[2]);
      if e.flags.huge {
        return e.frame / ENTRIES * HUGE_SIZE + v % HUGE_SIZE;
      }
      if !e.flags.present { return 0; }
      phys := Entry(e.frame, p[3]).frame * PAGE_SIZE + v % PAGE_SIZE;
    }

    /** vmm_get_flags. */
    method GetFlagsOf(root: nat, v: nat) returns (flags: Flags)
      requires Valid()
      ensures flags == GetFlags(State(), root, v)
    {
      var p := Path(v);
      if !Entry(root, p[0]).flags.present { return EMPTY.flags; }
      var pdpt := Entry(root, p[0]).frame;
      if !Entry(pdpt, p[1]).flags.present { return EMPTY.flags; }
      var e := Entry(Entry(pdpt, p[1]).frame, p[2]);
      if e.flags.huge { return e.flags; }
      if !e.flags.present { return EMPTY.flags; }
      flags := Entry(e.frame, p[3]).flags;
    }

    /** The leaf part of vmm_clone_address_space. */
    method ShareEntry(src: nat, dst: nat, i: nat, e: Pte)
      requires Valid()
      modifies this`mem, pool.refs
      ensures Valid() && State() == ShareLeaf(old(State()), src, dst, i, e)
    {
      if e.flags.writable {
        SetEntry(src, i, Shared(e));
      }
      SetEntry(dst, i, Shared(e));
      pool.IncRef(e.frame * PAGE_SIZE);
    }

    /** The nested loops of vmm_clone_address_space, one loop a level. */
    method CloneLevel(depth: nat, src: nat, dst: nat, first: nat)
      requires Valid() && depth <= 3 && first <= ENTRIES
      requires CloneFrom(State(), depth, src, dst, first).Some?
      modifies this`mem, pool`top, pool.bitmap, pool.refs
      ensures Valid() && State() == CloneFrom(old(State()), depth, src, dst, first).value
      decreases 3 - depth
    {
      var i := first;
      while i < ENTRIES
        invariant Valid() && first <= i <= ENTRIES
        invariant CloneFrom(State(), depth, src, dst, i) == CloneFrom(old(State()), depth, src, dst, first)
      {
        var e := Entry(src, i);
        ghost var was := State();
        assert e == Ent(was, src, i) && CloneEntry(was, depth, src, dst, i).Some?;
        if e.flags.present {
          if depth == 3 {
            ShareEntry(src, dst, i, e);
          } else if depth == 2 && e.flags.huge {
            ShareEntry(src, dst, i, e.(frame := e.frame / ENTRIES * ENTRIES));
          } else {
            var child := EnsureNextTable(dst, i);
            CloneLevel(depth + 1, e.frame, child.value, 0);
          }
        }
        assert Some(State()) == CloneEntry(was, depth, src, dst, i);
        i := i + 1;
      }
    }

    /** vmm_clone_address_space, called with enough free frames (its results are unchecked). */
    method CloneAddressSpace(kernel: Pte, src: nat) returns (root: nat)
      requires Valid() && Clone(State(), kernel, src).Some?
      modifies this`mem, pool`top, pool.bitmap, pool.refs
      ensures Valid() && Clone(old(State()), kernel, src) == Some((root, State()))
    {
      var r := CreateAddressSpace(kernel);
      CloneLevel(0, src, r.value, 1);
      root := r.value;
    }

    /** The nested loops of vmm_destroy_address_space. */
    method DestroyLevel(depth: nat, t: nat, first: nat)
      requires Valid() && depth <= 3 && first <= ENTRIES
      modifies pool`top, pool.bitmap, pool.stack, pool.refs
      ensures Valid() && State() == DestroyFrom(old(State()), depth, t, first)
      decreases 3 - depth
    {
      var i := first;
      while i < ENTRIES
        invariant Valid() && first <= i <= ENTRIES
        invariant DestroyFrom(State(), depth, t, i) == DestroyFrom(old(State()), depth, t, first)
      {
        var e := Entry(t, i);
        ghost var was := State();
        assert e == Ent(was, t, i);
        if e.flags.present {
          if depth < 3 {
            DestroyLevel(depth + 1, e.frame, 0);
          }
          pool.FreeFrame(e.frame * PAGE_SIZE);
        }
        assert State() == DestroyEntry(was, depth, t, i);
        i := i + 1;
      }
    }

    /** vmm_destroy_address_space. */
    method DestroyAddressSpace(root: nat)
      requires Valid()
      modifies pool`top, pool.bitmap, pool.stack, pool.refs
      ensures Valid() && State() == Destroy(old(State()), root)
    {
      DestroyLevel(0, root, 1);
      pool.FreeFrame(root * PAGE_SIZE);
    }

    method MapAndDrop(root: nat, page: nat, f: nat, shared: nat, flags: Flags)
      requires Valid()
      modifies this`mem, pool`top, pool.bitmap, pool.stack, pool.refs
      ensures Valid()
      ensures var n := Map(old(State()), root, page, f * PAGE_SIZE, flags);
        State() == n.(pool := Free(n.pool, shared))
    {
      MapPage(root, page, f * PAGE_SIZE, flags);
      pool.FreeFrame(shared * PAGE_SIZE);
    }

    /** Its copying branch. */
    method SplitPage(root: nat, page: nat, shared: nat, flags: Flags)
      requires Valid() && Alloc(State().pool).0.Some? && shared in mem
      modifies this`mem, pool`top, pool.bitmap, pool.stack, pool.refs
      ensures Valid()
      ensures var (f, p) := Alloc(old(State()).pool);
        var m1 := Machine(old(mem)[f.value := old(mem)[shared]], p);
        var m2 := Map(m1, root, page, f.value * PAGE_SIZE, flags);
        State() == m2.(pool := Free(m2.pool, shared))
    {
      var frame := pool.AllocFrame();
      var f := frame.value / PAGE_SIZE;
      assert frame.value == f * PAGE_SIZE;
      mem := mem[f := mem[shared]];
      MapAndDrop(root, page, f, shared, flags);
    }

    /** The copy-on-write branch of handle_page_fault. */
    method ReopenPage(root: nat, page: nat, shared: nat, flags: Flags)
      requires Valid() && Reopen(State(), root, page, shared, flags).Resolved?
      modifies this`mem, pool`top, pool.bitmap, pool.stack, pool.refs
      ensures Valid() && Reopen(old(State()), root, page, shared, flags) == Resolved(State())
    {
      var count := pool.GetRef(shared * PAGE_SIZE);
      assert shared * PAGE_SIZE / PAGE_SIZE == shared;
      if count > 1 {
        SplitShared(root, page, shared, flags);
      } else {
        MapPage(root, page, shared * PAGE_SIZE, flags);
      }
    }

    method SplitShared(root: nat, page: nat, shared: nat, flags: Flags)
      requires Valid() && RefOf(State().pool, shared) > 1 && Reopen(State(), root, page, shared, flags).Resolved?
      modifies this`mem, pool`top, pool.bitmap, pool.stack, pool.refs
      ensures Valid() && Reopen(old(State()), root, page, shared, flags) == Resolved(State())
    {
      SplitPage(root, page, shared, flags);
    }

    /** handle_page_fault for a write fault, called with a frame to spare. */
    method HandleWriteFault(root: nat, v: nat) returns (handled: bool)
      requires Valid() && !WriteFault(State(), root, v).OutOfFrames?
      modifies this`mem, pool`top, pool.bitmap, pool.stack, pool.refs
      ensures Valid()
      ensures handled ==> WriteFault(old(State()), root, v) == Resolved(State())
      ensures !handled ==> WriteFault(old(State()), root, v).NotHandled? && State() == old(State())
    {
      var flags := GetFlagsOf(root, v);
      if !flags.cow {
        return false;
      }
      ReopenAt(root, v, flags);
      handled := true;
    }

    method ReopenAt(root: nat, v: nat, flags: Flags)
      requires Valid() && flags == GetFlags(State(), root, v) && flags.cow && !WriteFault(State(), root, v).OutOfFrames?
      modifies this`mem, pool`top, pool.bitmap, pool.stack, pool.refs
      ensures Valid() && WriteFault(old(State()), root, v) == Resolved(State())
    {
      var phys := GetPhysOf(root, v);
      ReopenPage(root, v / PAGE_SIZE * PAGE_SIZE, phys / PAGE_SIZE, flags.(cow := false, writable := true));
    }
  }
}
