/** Physical frame pool (src/kernel/pmm.c): a bitmap, a stack of free
    frame addresses and a reference count for every frame. */
module Frames {
  import opened Common

  const MAX_FRAMES: nat := 0x10_0000
  const PAGE_SIZE: nat := 4096
  const REF_LIMIT: nat := 0x1_0000_0000  // ref_counts[] holds uint32_t

  // ---------------------------------------------------------------- specification

  /** The pool by frame number: the live part of the free stack, bottom first, and the
      reference counts. */
  datatype Pool = Pool(free: seq<nat>, refs: seq<nat>)

  /** What every pool operation keeps: a frame is on the free stack at most once. */
  ghost predicate Wf(p: Pool) {
    && |p.refs| == MAX_FRAMES
    && NoDup(p.free)
    && (forall k :: 0 <= k < |p.free| ==> p.free[k] < MAX_FRAMES)
  }

  function Alloc(p: Pool): (r: (Option<nat>, Pool))
    ensures Wf(p) ==> Wf(r.1)
    ensures r.0.Some? ==> r.0.value in p.free
    ensures Wf(p) && r.0.Some? ==> r.0.value !in r.1.free
  {
    if |p.free| == 0 || p.free[|p.free| - 1] >= |p.refs| then (None, p)
    else
      var f := p.free[|p.free| - 1];
      (Some(f), Pool(p.free[..|p.free| - 1], p.refs[f := 1]))
  }

  function Free(p: Pool, f: nat): (q: Pool)
    ensures Wf(p) ==> Wf(q)
  {
    if f >= |p.refs| || p.refs[f] == 0 then p
    else
      var refs := p.refs[f := p.refs[f] - 1];
      Pool(if refs[f] == 0 && f !in p.free then p.free + [f] else p.free, refs)
  }

  function RefInc(p: Pool, f: nat): (q: Pool)
    ensures Wf(p) ==> Wf(q)
  {
    if f >= |p.refs| then p else p.(refs := p.refs[f := (p.refs[f] + 1) % REF_LIMIT])
  }

  /** pmm_get_ref. */
  function RefOf(p: Pool, f: nat): nat {
    if f < |p.refs| then p.refs[f] else 0
  }

  datatype PoolOp = DoAlloc | DoFree(frame: nat) | DoRefInc(frame: nat)

  function Apply(p: Pool, op: PoolOp): Pool {
    match op
    case DoAlloc => Alloc(p).1
    case DoFree(f) => Free(p, f)
    case DoRefInc(f) => RefInc(p, f)
  }

  function ApplyAll(p: Pool, ops: seq<PoolOp>): Pool
    decreases |ops|
  {
    if ops == [] then p else ApplyAll(Apply(p, ops[0]), ops[1..])
  }

  /** No sequence of calls, however ill-matched, puts a frame on the stack twice or lets the
      stack outgrow its array; and a frame handed out is not handed out again before a free
      puts it back. */
  lemma {:induction false} PoolSafety(p: Pool, ops: seq<PoolOp>)
    requires Wf(p)
    ensures Wf(ApplyAll(p, ops))
    ensures |ApplyAll(p, ops).free| <= MAX_FRAMES
    decreases |ops|
  {
    if ops == [] {
      Pigeonhole(p.free, MAX_FRAMES);
    } else {
      PoolSafety(Apply(p, ops[0]), ops[1..]);
    }
  }

  lemma {:induction false} HandedOutOnce(p: Pool, ops: seq<PoolOp>, f: nat)
    requires Wf(p) && f !in p.free
    requires DoFree(f) !in ops
    ensures f !in ApplyAll(p, ops).free
    decreases |ops|
  {
    if ops != [] {
      assert f !in Apply(p, ops[0]).free;
      HandedOutOnce(Apply(p, ops[0]), ops[1..], f);
    }
  }

  /** A frame that is reserved (not free, and nobody's) stays out of the pool for good, even if it is
      freed by mistake, unless someone counts it first. */
  lemma {:induction false} ReservedStayOut(p: Pool, ops: seq<PoolOp>, f: nat)
    requires Wf(p) && f !in p.free && RefOf(p, f) == 0
    requires DoRefInc(f) !in ops
    ensures f !in ApplyAll(p, ops).free && RefOf(ApplyAll(p, ops), f) == 0
    decreases |ops|
  {
    if ops != [] { ReservedStayOut(Apply(p, ops[0]), ops[1..], f); }
  }

  /** The frame freed last is handed out first, and a frame handed out and freed again leaves the
      stack as it was. */
  lemma LastFreedFirst(p: Pool, f: nat)
    requires Wf(p)
    ensures f !in p.free && RefOf(p, f) == 1 ==> Alloc(Free(p, f)).0 == Some(f) && Alloc(Free(p, f)).1.free == p.free
    ensures Alloc(p).0.Some? ==> Free(Alloc(p).1, Alloc(p).0.value).free == p.free
    ensures Alloc(p).0.None? <==> p.free == []
  {
    if p.free != [] { assert p.free == p.free[..|p.free| - 1] + [p.free[|p.free| - 1]]; }
  }

  predicate FreeAreZero(p: Pool) {
    forall k :: 0 <= k < |p.free| ==> RefOf(p, p.free[k]) == 0
  }

  /** A pmm_ref_inc of a frame that is free; the code does not refuse it. */
  predicate CountsFree(p: Pool, op: PoolOp) {
    op.DoRefInc? && op.frame in p.free
  }

  predicate AlwaysZero(p: Pool, ops: seq<PoolOp>)
    decreases |ops|
  {
    FreeAreZero(p) && (ops != [] ==> AlwaysZero(Apply(p, ops[0]), ops[1..]))
  }

  predicate NeverCountsFree(p: Pool, ops: seq<PoolOp>)
    decreases |ops|
  {
    ops != [] ==> !CountsFree(p, ops[0]) && NeverCountsFree(Apply(p, ops[0]), ops[1..])
  }

  lemma OneCallKeepsZero(p: Pool, op: PoolOp)
    requires Wf(p) && FreeAreZero(p)
    ensures FreeAreZero(Apply(p, op)) <==> !CountsFree(p, op)
  {
    if CountsFree(p, op) {
      var k :| 0 <= k < |p.free| && p.free[k] == op.frame;
      assert RefOf(Apply(p, op), Apply(p, op).free[k]) == 1;
    }
  }

  /** Along a run the free frames keep count 0 if and only if no ref_inc is ever applied to a
      frame that is free at the time. */
  lemma {:induction false} FreeFramesStayZero(p: Pool, ops: seq<PoolOp>)
    requires Wf(p) && FreeAreZero(p)
    ensures AlwaysZero(p, ops) <==> NeverCountsFree(p, ops)
    decreases |ops|
  {
    if ops != [] {
      OneCallKeepsZero(p, ops[0]);
      if !CountsFree(p, ops[0]) { FreeFramesStayZero(Apply(p, ops[0]), ops[1..]); }
    }
  }

  /** For instance, frame 7 alone on the stack is still there, with count 1, after a ref_inc. */
  lemma {:induction false} CountedWhileFree(p: Pool)
    requires Wf(p) && FreeAreZero(p) && p.free == [7]
    ensures var q := ApplyAll(p, [DoRefInc(7)]); q.free == [7] && RefOf(q, 7) == 1
  {
    assert p.free[0] == 7 && RefOf(p, 7) == 0;
    assert ApplyAll(RefInc(p, 7), []) == RefInc(p, 7);
    assert [DoRefInc(7)][1..] == [];
  }

  // ---------------------------------------------------------------- the allocator

  ghost function FrameNumbers(addrs: seq<nat>): (fs: seq<nat>)
    ensures |fs| == |addrs|
    ensures forall k :: 0 <= k < |fs| ==> fs[k] == addrs[k] / PAGE_SIZE
  {
    seq(|addrs|, k requires 0 <= k < |addrs| => addrs[k] / PAGE_SIZE)
  }

  /** The frames below n whose bit is clear, in ascending order. */
  function ClearBits(bitmap: seq<bool>, n: nat): seq<nat>
    requires n <= |bitmap|
  {
    if n == 0 then []
    else if bitmap[n - 1] then ClearBits(bitmap, n - 1)
    else ClearBits(bitmap, n - 1) + [n - 1]
  }

  lemma {:induction false} ClearBitsAscending(bitmap: seq<bool>, n: nat)
    requires n <= |bitmap|
    ensures forall f: nat :: f in ClearBits(bitmap, n) <==> f < n && !bitmap[f]
    ensures NoDup(ClearBits(bitmap, n)) && forall k :: 0 <= k < |ClearBits(bitmap, n)| ==> ClearBits(bitmap, n)[k] < n
    ensures forall i, j :: 0 <= i < j < |ClearBits(bitmap, n)| ==> ClearBits(bitmap, n)[i] < ClearBits(bitmap, n)[j]
  {
    if n > 0 {
      ClearBitsAscending(bitmap, n - 1);
      var below := ClearBits(bitmap, n - 1);
      assert forall k :: 0 <= k < |below| ==> below[k] < n - 1;
      assert forall f :: f in below ==> f < n - 1;
    }
  }

  /** A frame that is not free leaves room on the stack for itself. */
  lemma RoomToPush(p: Pool, f: nat)
    requires Wf(p) && f < MAX_FRAMES && f !in p.free
    ensures |p.free| < MAX_FRAMES
  {
    Pigeonhole(p.free + [f], MAX_FRAMES);
  }

  class FramePool {
    const bitmap: array<bool>  // one element per bit of frame_bitmap
    const stack: array<nat>    // free_stack: physical addresses
    const refs: array<nat>
    var top: int               // stack_ptr
    var total: nat             // total_frames

    ghost function FreeFrames(): seq<nat>
      requires -1 <= top < stack.Length
      reads this, stack
    {
      FrameNumbers(stack[..top + 1])
    }

    /** Bitmap, stack and counts agree: a frame's bit is clear exactly when the frame is in
        the live part of the stack, where it occurs once. */
    ghost predicate Valid()
      reads this, bitmap, stack, refs
    {
      && bitmap.Length == MAX_FRAMES
      && stack.Length == MAX_FRAMES
      && refs.Length == MAX_FRAMES
      && stack != refs
      && -1 <= top < MAX_FRAMES
      && Wf(State())
      && (forall f :: 0 <= f < MAX_FRAMES ==> (bitmap[f] <==> f !in FreeFrames()))
    }

    ghost function State(): Pool
      requires -1 <= top < stack.Length
      reads this, stack, refs
    {
      Pool(FreeFrames(), refs[..])
    }

    ghost predicate Aligned()
      requires -1 <= top < stack.Length
      reads this, stack
    {
      forall k :: 0 <= k <= top ==> stack[k] % PAGE_SIZE == 0
    }

    /** pmm_init before the memory map is read: every frame reserved, every count zero. */
    constructor ()
      ensures Valid() && Aligned()
      ensures State().free == [] && forall f :: 0 <= f < MAX_FRAMES ==> State().refs[f] == 0
      ensures fresh(bitmap) && fresh(stack) && fresh(refs)
    {
      bitmap := new bool[MAX_FRAMES](_ => true);
      stack := new nat[MAX_FRAMES];
      refs := new nat[MAX_FRAMES](_ => 0);
      top := -1;
      total := 0;
    }

    /** pmm_init once the memory map is in the bitmap: push every frame whose bit is clear,
        in ascending order. No frame at or above maxFrame was reported usable. */
    method BuildStack(maxFrame: nat)
      requires bitmap.Length == MAX_FRAMES && stack.Length == MAX_FRAMES && refs.Length == MAX_FRAMES
      requires top == -1 && stack != refs
      requires maxFrame <= MAX_FRAMES
      requires forall f :: maxFrame <= f < MAX_FRAMES ==> bitmap[f]
      modifies this, stack
      ensures Valid() && Aligned()
      ensures State().refs == old(refs[..])
      ensures forall f :: 0 <= f < MAX_FRAMES ==> (f in State().free <==> !bitmap[f])
      ensures forall i, j :: 0 <= i < j <= top ==> State().free[i] < State().free[j]
      ensures total == old(total) + |State().free|
    {
      var f := 0;
      while f < maxFrame
        invariant f <= maxFrame
        invariant -1 <= top < f
        invariant total == old(total) + top + 1
        invariant Aligned()
        invariant FreeFrames() == ClearBits(bitmap[..], f)
      {
        if !bitmap[f] {
          ghost var before := FreeFrames();
          top := top + 1;
          stack[top] := f * PAGE_SIZE;
          total := total + 1;
          assert FreeFrames() == before + [f];
        }
        f := f + 1;
      }
      ClearBitsAscending(bitmap[..], f);
    }

    /** pmm_alloc_frame: the address on top of the stack, or None for a null result. */
    method AllocFrame() returns (r: Option<nat>)
      requires Valid()
      modifies this`top, bitmap, refs
      ensures Valid()
      ensures State() == Alloc(old(State())).1
      ensures r.None? <==> Alloc(old(State())).0.None?
      ensures r.Some? ==> Alloc(old(State())).0 == Some(r.value / PAGE_SIZE)
      ensures old(Aligned()) ==> Aligned() && (r.Some? ==> r.value % PAGE_SIZE == 0)
    {
      if top < 0 {
        return None;
      }
      ghost var was := State();
      var addr := stack[top];
      assert was.free[top] == addr / PAGE_SIZE;
      top := top - 1;
      assert FreeFrames() == was.free[..|was.free| - 1];
      bitmap[addr / PAGE_SIZE] := true;
      refs[addr / PAGE_SIZE] := 1;
      r := Some(addr);
    }

    /** pmm_free_frame: drop one reference; the last one puts the frame back. */
    method FreeFrame(addr: nat)
      requires Valid()
      modifies this`top, bitmap, stack, refs
      ensures Valid()
      ensures State() == Free(old(State()), addr / PAGE_SIZE)
      ensures old(Aligned()) && addr % PAGE_SIZE == 0 ==> Aligned()
    {
      hide Wf;
      ghost var was := State();
      var f := addr / PAGE_SIZE;
      if f >= MAX_FRAMES {
        return;
      }
      if refs[f] > 0 {
        refs[f] := refs[f] - 1;
        if refs[f] == 0 && bitmap[f] {
          RoomToPush(was, f);
          bitmap[f] := false;
          top := top + 1;
          stack[top] := addr;
          assert FreeFrames() == was.free + [f];
        } else {
          assert FreeFrames() == was.free;
        }
        assert State() == Free(was, f);
      }
    }

    /** pmm_ref_inc, with the 32-bit counter's wrap-around. */
    method IncRef(addr: nat)
      requires Valid()
      modifies refs
      ensures Valid()
      ensures State() == RefInc(old(State()), addr / PAGE_SIZE)
    {
      var f := addr / PAGE_SIZE;
      if f < MAX_FRAMES {
        refs[f] := (refs[f] + 1) % REF_LIMIT;
      }
    }

    method GetRef(addr: nat) returns (count: nat)
      requires Valid()
      ensures count == RefOf(State(), addr / PAGE_SIZE)
    {
      var f := addr / PAGE_SIZE;
      count := if f < MAX_FRAMES then refs[f] else 0;
    }
  }
}
