/** The kernel heap as a list of blocks (src/kernel/kmalloc.c): first fit with splitting, and
    freeing with full coalescing. */
module HeapBlocks {
  import opened Common

  const HEAP_START: nat := 0x100_0000
  const HEAP_SIZE: nat := 0x100_0000
  const HEADER: nat := 24
  const WORD64: nat := 0x1_0000_0000_0000_0000

  datatype Block = Block(addr: nat, size: nat, free: bool)

  // ---------------------------------------------------------------- operations

  /** Requests are rounded up to eight bytes in 64-bit arithmetic. */
  function Round(n: nat): nat {
    (n + 7) % WORD64 / 8 * 8
  }

  predicate Fits(b: Block, size: nat) {
    b.free && b.size >= size
  }

  /** What kmalloc makes of the block it has chosen. */
  function Carve(b: Block, size: nat): seq<Block>
    requires Fits(b, size)
  {
    if b.size >= size + HEADER + 8 then
      [Block(b.addr, size, false), Block(b.addr + HEADER + size, b.size - size - HEADER, true)]
    else [Block(b.addr, b.size, false)]
  }

  /** kmalloc for an already rounded size: the address of the chosen header and the new list. */
  function Alloc(bs: seq<Block>, size: nat): (Option<nat>, seq<Block>)
    decreases |bs|
  {
    if bs == [] then (None, bs)
    else if Fits(bs[0], size) then (Some(bs[0].addr), Carve(bs[0], size) + bs[1..])
    else
      var (p, rest) := Alloc(bs[1..], size);
      (p, [bs[0]] + rest)
  }

  function Merge(a: Block, b: Block): Block {
    a.(size := a.size + b.size + HEADER)
  }

  /** The coalescing loop of kfree. */
  function Coalesce(bs: seq<Block>): seq<Block>
    decreases |bs|
  {
    if |bs| < 2 then bs
    else if bs[0].free && bs[1].free then Coalesce([Merge(bs[0], bs[1])] + bs[2..])
    else [bs[0]] + Coalesce(bs[1..])
  }

  function MarkFree(bs: seq<Block>, addr: nat): seq<Block>
    decreases |bs|
  {
    if bs == [] then []
    else if bs[0].addr == addr then [bs[0].(free := true)] + bs[1..]
    else [bs[0]] + MarkFree(bs[1..], addr)
  }

  /** kfree of the block whose header is at addr; freeing a free block does nothing. */
  function Free(bs: seq<Block>, addr: nat): seq<Block> {
    if exists b :: b in bs && b.addr == addr && b.free then bs else Coalesce(MarkFree(bs, addr))
  }

  // ---------------------------------------------------------------- shape

  /** The blocks lie one after the other from start to end, in multiples of eight bytes. */
  ghost predicate Tiles(bs: seq<Block>, start: nat, end: nat)
    decreases |bs|
  {
    if bs == [] then start == end
    else
      && bs[0].addr == start && bs[0].size % 8 == 0
      && Tiles(bs[1..], start + HEADER + bs[0].size, end)
  }

  /** No two neighbours are both free. */
  ghost predicate Canonical(bs: seq<Block>) {
    forall k {:trigger bs[k]} :: 0 <= k < |bs| - 1 ==> !(bs[k].free && bs[k + 1].free)
  }

  ghost predicate HeapOk(bs: seq<Block>) {
    Tiles(bs, HEAP_START, HEAP_START + HEAP_SIZE) && Canonical(bs)
  }

  /** The allocations: address and size of each block in use. */
  function Live(bs: seq<Block>): set<(nat, nat)> {
    set b | b in bs && !b.free :: (b.addr, b.size)
  }

  lemma {:induction false} TilesRange(bs: seq<Block>, start: nat, end: nat)
    requires Tiles(bs, start, end)
    ensures start + HEADER * |bs| <= end
    ensures forall b :: b in bs ==> start <= b.addr && b.addr + HEADER + b.size <= end
    decreases |bs|
  {
    if bs != [] {
      TilesRange(bs[1..], start + HEADER + bs[0].size, end);
      assert bs == [bs[0]] + bs[1..];
    }
  }

  /** Different blocks do not overlap. */
  lemma {:induction false} BlocksDisjoint(bs: seq<Block>, start: nat, end: nat, j: nat, k: nat)
    requires Tiles(bs, start, end) && j < k < |bs|
    ensures bs[j].addr + HEADER + bs[j].size <= bs[k].addr
    decreases |bs|
  {
    TilesRange(bs[1..], start + HEADER + bs[0].size, end);
    if j == 0 {
      assert bs[k] == bs[1..][k - 1];
    } else {
      BlocksDisjoint(bs[1..], start + HEADER + bs[0].size, end, j - 1, k - 1);
    }
  }

  lemma CanonicalTail(bs: seq<Block>)
    requires bs != [] && Canonical(bs)
    ensures Canonical(bs[1..])
  {
    forall k | 0 <= k < |bs[1..]| - 1 ensures !(bs[1..][k].free && bs[1..][k + 1].free) {
      assert bs[1..][k] == bs[k + 1] && bs[1..][k + 1] == bs[k + 2];
    }
  }

  lemma LiveCons(bs: seq<Block>)
    requires bs != []
    ensures Live(bs) == Live(bs[1..]) + (if bs[0].free then {} else {(bs[0].addr, bs[0].size)})
  {
    assert bs == [bs[0]] + bs[1..];
  }

  /** The live allocations alone determine the block list. */
  lemma {:induction false} LiveDetermines(bs: seq<Block>, cs: seq<Block>, start: nat, end: nat)
    requires Tiles(bs, start, end) && Canonical(bs) && Tiles(cs, start, end) && Canonical(cs)
    requires Live(bs) == Live(cs)
    ensures bs == cs
    decreases |bs|
  {
    TilesRange(bs, start, end);
    TilesRange(cs, start, end);
    if bs != [] && cs != [] {
      LiveCons(bs);
      LiveCons(cs);
      HeadsAgree(bs, cs, start, end);
      CanonicalTail(bs);
      CanonicalTail(cs);
      var mid := start + HEADER + bs[0].size;
      TilesRange(bs[1..], mid, end);
      TilesRange(cs[1..], mid, end);
      assert (bs[0].addr, bs[0].size) !in Live(bs[1..]) && (cs[0].addr, cs[0].size) !in Live(cs[1..]);
      LiveDetermines(bs[1..], cs[1..], mid, end);
      assert bs == [bs[0]] + bs[1..] && cs == [cs[0]] + cs[1..];
    }
  }

  lemma {:induction false} HeadsAgree(bs: seq<Block>, cs: seq<Block>, start: nat, end: nat)
    requires bs != [] && cs != []
    requires Tiles(bs, start, end) && Canonical(bs) && Tiles(cs, start, end) && Canonical(cs)
    requires Live(bs) == Live(cs)
    ensures bs[0] == cs[0]
  {
    if !bs[0].free || !cs[0].free {
      HeadFromLive(bs, cs, start, end);
      HeadFromLive(cs, bs, start, end);
    } else {
      FreeHead(bs, cs, start, end);
      FreeHead(cs, bs, start, end);
    }
  }

  lemma {:induction false} HeadFromLive(bs: seq<Block>, cs: seq<Block>, start: nat, end: nat)
    requires bs != [] && cs != [] && Tiles(bs, start, end) && Tiles(cs, start, end) && Live(bs) == Live(cs)
    ensures !bs[0].free ==> bs[0] == cs[0]
  {
    if !bs[0].free {
      assert (bs[0].addr, bs[0].size) in Live(bs);
      var c :| c in cs && !c.free && (c.addr, c.size) == (bs[0].addr, bs[0].size);
      TilesRange(cs[1..], start + HEADER + cs[0].size, end);
      assert cs == [cs[0]] + cs[1..];
    }
  }

  lemma {:induction false} FreeHead(bs: seq<Block>, cs: seq<Block>, start: nat, end: nat)
    requires bs != [] && cs != [] && bs[0].free && cs[0].free
    requires Tiles(bs, start, end) && Canonical(bs) && Tiles(cs, start, end) && Live(bs) == Live(cs)
    ensures bs[0].size >= cs[0].size
  {
    var mid := start + HEADER + bs[0].size;
    TilesRange(cs[1..], start + HEADER + cs[0].size, end);
    assert cs == [cs[0]] + cs[1..];
    if bs[1..] != [] {
      assert bs[1] == bs[1..][0] && bs[1] in bs && !bs[1].free;
      assert (bs[1].addr, bs[1].size) in Live(bs);
    }
  }

  // ---------------------------------------------------------------- what the operations keep

  lemma CanonicalCons(b: Block, rest: seq<Block>)
    requires Canonical(rest) && (rest != [] ==> !(b.free && rest[0].free))
    ensures Canonical([b] + rest)
  {
    var bs := [b] + rest;
    forall k | 0 <= k < |bs| - 1 ensures !(bs[k].free && bs[k + 1].free) {
      if k > 0 { assert bs[k] == rest[k - 1] && bs[k + 1] == rest[k]; }
    }
  }

  lemma {:induction false} CarveTiles(b: Block, rest: seq<Block>, size: nat, start: nat, end: nat)
    requires Fits(b, size) && size % 8 == 0 && b.addr == start && b.size % 8 == 0
    requires Tiles(rest, start + HEADER + b.size, end)
    ensures Tiles(Carve(b, size) + rest, start, end)
  {
    var c := Carve(b, size);
    assert (c + rest)[1..] == c[1..] + rest;
    if |c| == 2 {
      assert (c + rest)[1..][1..] == rest;
    } else {
      assert c[1..] + rest == rest;
    }
  }

  lemma CarveCanonical(b: Block, rest: seq<Block>, size: nat)
    requires Fits(b, size) && Canonical([b] + rest)
    ensures Canonical(Carve(b, size) + rest)
  {
    var bs, c := [b] + rest, Carve(b, size);
    assert bs[1..] == rest;
    CanonicalTail(bs);
    if |c| == 2 {
      if rest != [] { assert bs[0] == b && bs[1] == rest[0]; }
      CanonicalCons(c[1], rest);
      CanonicalCons(c[0], [c[1]] + rest);
      assert c + rest == [c[0]] + ([c[1]] + rest);
    } else {
      CanonicalCons(c[0], rest);
    }
  }

  /** Allocation keeps the tiling and the canonical form. */
  lemma {:induction false} AllocKeeps(bs: seq<Block>, size: nat, start: nat, end: nat)
    requires Tiles(bs, start, end) && Canonical(bs) && size % 8 == 0
    ensures Tiles(Alloc(bs, size).1, start, end) && Canonical(Alloc(bs, size).1)
    ensures bs != [] ==> Alloc(bs, size).1 != [] && (Alloc(bs, size).1[0].free ==> bs[0].free)
    decreases |bs|
  {
    if bs != [] {
      assert bs == [bs[0]] + bs[1..];
      if Fits(bs[0], size) {
        CarveTiles(bs[0], bs[1..], size, start, end);
        CarveCanonical(bs[0], bs[1..], size);
      } else {
        CanonicalTail(bs);
        AllocKeeps(bs[1..], size, start + HEADER + bs[0].size, end);
        var rest := Alloc(bs[1..], size).1;
        if rest != [] { assert bs[1] == bs[1..][0]; }
        CanonicalCons(bs[0], rest);
        assert ([bs[0]] + rest)[1..] == rest;
      }
    }
  }

  /** Allocation fails exactly when no free block is large enough; otherwise it adds one live
      block, taken from a free one that is. It has the size asked for, and what is left of
      the free block is a free block of at least eight bytes; or it is the whole free block, which
      then is less than a minimal block larger. Nothing else that is live moves or changes size. */
  lemma {:induction false} AllocEffect(bs: seq<Block>, size: nat, start: nat, end: nat) returns (got: nat, host: Block)
    requires Tiles(bs, start, end) && size % 8 == 0
    ensures Alloc(bs, size).0.None? <==> forall b :: b in bs ==> !Fits(b, size)
    ensures Alloc(bs, size).0.None? ==> Alloc(bs, size).1 == bs
    ensures Alloc(bs, size).0.Some? ==>
      && host in bs && Fits(host, size) && Alloc(bs, size).0 == Some(host.addr)
      && size <= got < size + HEADER + 8
      && (got == size || got == host.size) && (got == host.size || host.size >= got + HEADER + 8)
      && (host.addr, got) !in Live(bs) && Live(Alloc(bs, size).1) == Live(bs) + {(host.addr, got)}
    decreases |bs|
  {
    got, host := 0, Block(0, 0, false);
    if bs != [] {
      assert bs == [bs[0]] + bs[1..];
      LiveCons(bs);
      TilesRange(bs[1..], start + HEADER + bs[0].size, end);
      if Fits(bs[0], size) {
        CarveLive(bs[0], bs[1..], size);
        got, host := Carve(bs[0], size)[0].size, bs[0];
      } else {
        got, host := AllocEffect(bs[1..], size, start + HEADER + bs[0].size, end);
        var after := Alloc(bs, size).1;
        LiveCons(after);
        assert after[1..] == Alloc(bs[1..], size).1;
      }
    }
  }

  lemma CarveLive(b: Block, rest: seq<Block>, size: nat)
    requires Fits(b, size)
    ensures Live(Carve(b, size) + rest) == Live(rest) + {(b.addr, Carve(b, size)[0].size)}
  {
    var c := Carve(b, size);
    LiveCons(c + rest);
    assert (c + rest)[1..] == c[1..] + rest;
    if |c| == 2 {
      LiveCons([c[1]] + rest);
      assert ([c[1]] + rest)[1..] == rest;
      assert c[1..] + rest == [c[1]] + rest;
    } else {
      assert c[1..] + rest == rest;
    }
  }

  /** Coalescing merges all free neighbours, keeps the tiling and touches no live block. */
  lemma {:induction false} CoalesceKeeps(bs: seq<Block>, start: nat, end: nat)
    requires Tiles(bs, start, end)
    ensures Tiles(Coalesce(bs), start, end) && Canonical(Coalesce(bs)) && Live(Coalesce(bs)) == Live(bs)
    ensures bs != [] ==> Coalesce(bs) != [] && Coalesce(bs)[0].free == bs[0].free
    decreases |bs|
  {
    if |bs| >= 2 {
      LiveCons(bs);
      if bs[0].free && bs[1].free {
        var merged := [Merge(bs[0], bs[1])] + bs[2..];
        LiveCons(bs[1..]);
        LiveCons(merged);
        assert merged[1..] == bs[2..] == bs[1..][1..];
        CoalesceKeeps(merged, start, end);
      } else {
        CoalesceKeeps(bs[1..], start + HEADER + bs[0].size, end);
        var rest := Coalesce(bs[1..]);
        assert bs[1..][0] == bs[1];
        CanonicalCons(bs[0], rest);
        LiveCons([bs[0]] + rest);
        assert ([bs[0]] + rest)[1..] == rest;
      }
    }
  }

  lemma {:induction false} MarkFreeKeeps(bs: seq<Block>, addr: nat, start: nat, end: nat)
    requires Tiles(bs, start, end)
    ensures Tiles(MarkFree(bs, addr), start, end)
    ensures Live(MarkFree(bs, addr)) == set p | p in Live(bs) && p.0 != addr
    decreases |bs|
  {
    if bs != [] {
      var mid := start + HEADER + bs[0].size;
      var after := MarkFree(bs, addr);
      LiveCons(bs);
      LiveCons(after);
      TilesRange(bs[1..], mid, end);
      if bs[0].addr == addr {
        assert after[1..] == bs[1..];
      } else {
        MarkFreeKeeps(bs[1..], addr, mid, end);
        assert after[1..] == MarkFree(bs[1..], addr);
      }
    }
  }

  /** Freeing keeps the heap well formed and removes exactly the given allocation. */
  lemma FreeKeeps(bs: seq<Block>, addr: nat)
    requires HeapOk(bs)
    ensures HeapOk(Free(bs, addr))
    ensures Live(Free(bs, addr)) == set p | p in Live(bs) && p.0 != addr
  {
    var start, end := HEAP_START, HEAP_START + HEAP_SIZE;
    if b :| b in bs && b.addr == addr && b.free {
      forall p | p in Live(bs) ensures p.0 != addr {
        var c :| c in bs && !c.free && p == (c.addr, c.size);
        if c.addr == addr { AddressUnique(bs, b, c); }
      }
    } else {
      MarkFreeKeeps(bs, addr, start, end);
      CoalesceKeeps(MarkFree(bs, addr), start, end);
    }
  }

  lemma AddressUnique(bs: seq<Block>, b: Block, c: Block)
    requires HeapOk(bs) && b in bs && c in bs && b.addr == c.addr
    ensures b == c
  {
    var j :| 0 <= j < |bs| && bs[j] == b;
    var k :| 0 <= k < |bs| && bs[k] == c;
    if j < k {
      BlocksDisjoint(bs, HEAP_START, HEAP_START + HEAP_SIZE, j, k);
    } else if k < j {
      BlocksDisjoint(bs, HEAP_START, HEAP_START + HEAP_SIZE, k, j);
    }
  }

  // ---------------------------------------------------------------- theorems

  /** kmalloc and then kfree of the result restore the block list exactly. */
  lemma {:induction false} AllocThenFree(bs: seq<Block>, size: nat)
    requires HeapOk(bs) && size % 8 == 0 && Alloc(bs, size).0.Some?
    ensures Free(Alloc(bs, size).1, Alloc(bs, size).0.value) == bs
  {
    var start, end := HEAP_START, HEAP_START + HEAP_SIZE;
    var (p, after) := Alloc(bs, size);
    AllocKeeps(bs, size, start, end);
    var got, host := AllocEffect(bs, size, start, end);
    FreeKeeps(after, host.addr);
    forall q | q in Live(bs) ensures q.0 != host.addr {
      var c :| c in bs && !c.free && q == (c.addr, c.size);
      if c.addr == host.addr { AddressUnique(bs, host, c); }
    }
    LiveDetermines(Free(after, host.addr), bs, start, end);
  }

  /** The order of two frees does not matter. */
  lemma FreesCommute(bs: seq<Block>, x: nat, y: nat)
    requires HeapOk(bs)
    ensures Free(Free(bs, x), y) == Free(Free(bs, y), x)
  {
    FreeKeeps(bs, x);
    FreeKeeps(bs, y);
    FreeKeeps(Free(bs, x), y);
    FreeKeeps(Free(bs, y), x);
    LiveDetermines(Free(Free(bs, x), y), Free(Free(bs, y), x), HEAP_START, HEAP_START + HEAP_SIZE);
  }

  /** The list kmalloc_init builds. */
  function Initial(): seq<Block> {
    [Block(HEAP_START, HEAP_SIZE - HEADER, true)]
  }

  lemma InitialOk()
    ensures HeapOk(Initial()) && Live(Initial()) == {}
  {
    assert Initial()[1..] == [];
  }

  /** With nothing allocated the heap is one block again. */
  lemma AllFreedIsInitial(bs: seq<Block>)
    requires HeapOk(bs) && Live(bs) == {}
    ensures bs == Initial()
  {
    InitialOk();
    LiveDetermines(bs, Initial(), HEAP_START, HEAP_START + HEAP_SIZE);
  }

  datatype HeapOp = DoAlloc(size: nat) | DoFree(addr: nat)

  function Apply(bs: seq<Block>, op: HeapOp): seq<Block> {
    match op
    case DoAlloc(n) => Alloc(bs, Round(n)).1
    case DoFree(addr) => Free(bs, addr)
  }

  function ApplyAll(bs: seq<Block>, ops: seq<HeapOp>): seq<Block>
    decreases |ops|
  {
    if ops == [] then bs else ApplyAll(Apply(bs, ops[0]), ops[1..])
  }

  /** Over every run the blocks tile the region with no two free neighbours, and an
      allocation that is not freed keeps its place and size. */
  lemma {:induction false} HeapRun(bs: seq<Block>, ops: seq<HeapOp>)
    requires HeapOk(bs)
    ensures HeapOk(ApplyAll(bs, ops))
    ensures forall p :: p in Live(bs) && DoFree(p.0) !in ops ==> p in Live(ApplyAll(bs, ops))
    decreases |ops|
  {
    if ops != [] {
      match ops[0] {
        case DoAlloc(n) =>
          AllocKeeps(bs, Round(n), HEAP_START, HEAP_START + HEAP_SIZE);
          var _, _ := AllocEffect(bs, Round(n), HEAP_START, HEAP_START + HEAP_SIZE);
        case DoFree(addr) => FreeKeeps(bs, addr);
      }
      HeapRun(Apply(bs, ops[0]), ops[1..]);
    }
  }

  /** A request of n bytes that succeeds gets a block of at least n bytes if and only if n is
      not within seven bytes of the 64-bit limit, where rounding wraps around to 0. */
  lemma RequestHonoured(bs: seq<Block>, n: nat) returns (got: nat)
    requires HeapOk(bs) && n < WORD64 && Alloc(bs, Round(n)).0.Some?
    ensures Live(Alloc(bs, Round(n)).1) == Live(bs) + {(Alloc(bs, Round(n)).0.value, got)}
    ensures (Alloc(bs, Round(n)).0.value, got) !in Live(bs)
    ensures got >= n <==> n <= WORD64 - 8
    ensures got >= n ==> got < n + HEADER + 15
  {
    var host: Block;
    got, host := AllocEffect(bs, Round(n), HEAP_START, HEAP_START + HEAP_SIZE);
  }

  /** It does happen: on the fresh heap a request for 2^64 - 1 bytes succeeds with none. */
  lemma RequestExample()
    ensures Alloc(Initial(), Round(WORD64 - 1)).0 == Some(HEAP_START)
    ensures Live(Alloc(Initial(), Round(WORD64 - 1)).1) == {(HEAP_START, 0)}
  {
    assert Round(WORD64 - 1) == 0;
    LiveCons(Initial());
    CarveLive(Initial()[0], [], 0);
    assert Initial()[1..] == [] && Carve(Initial()[0], 0) + Initial()[1..] == Carve(Initial()[0], 0) + [];
  }

  // ---------------------------------------------------------------- accounting

  function Used(bs: seq<Block>): nat
    decreases |bs|
  {
    if bs == [] then 0 else (if bs[0].free then 0 else bs[0].size) + Used(bs[1..])
  }

  function Unused(bs: seq<Block>): nat
    decreases |bs|
  {
    if bs == [] then 0 else (if bs[0].free then bs[0].size else 0) + Unused(bs[1..])
  }

  function LiveCount(bs: seq<Block>): nat
    decreases |bs|
  {
    if bs == [] then 0 else (if bs[0].free then 0 else 1) + LiveCount(bs[1..])
  }

  /** Bytes used, bytes free and one header a block fill the region exactly. */
  lemma {:induction false} BytesAddUp(bs: seq<Block>, start: nat, end: nat)
    requires Tiles(bs, start, end)
    ensures start + Used(bs) + Unused(bs) + HEADER * |bs| == end
    decreases |bs|
  {
    if bs != [] {
      BytesAddUp(bs[1..], start + HEADER + bs[0].size, end);
    }
  }

  /** Where first fit stops. */
  ghost predicate FirstFit(bs: seq<Block>, size: nat, k: nat) {
    k < |bs| && Fits(bs[k], size) && forall j :: 0 <= j < k ==> !Fits(bs[j], size)
  }

  /** The first block that fits is the one taken. */
  lemma {:induction false} AllocAt(bs: seq<Block>, size: nat, k: nat)
    requires FirstFit(bs, size, k)
    ensures Alloc(bs, size) == (Some(bs[k].addr), bs[..k] + Carve(bs[k], size) + bs[k + 1..])
    decreases |bs|
  {
    if k > 0 {
      assert bs[1..][k - 1] == bs[k];
      assert forall j :: 0 <= j < k - 1 ==> bs[1..][j] == bs[j + 1];
      AllocAt(bs[1..], size, k - 1);
      var head, c, rest := bs[1..][..k - 1], Carve(bs[k], size), bs[k + 1..];
      assert bs[..k] == [bs[0]] + head && bs[1..][k - 1 + 1..] == rest;
      assert [bs[0]] + (head + c + rest) == [bs[0]] + head + c + rest;
    } else {
      assert bs[..0] + Carve(bs[0], size) == Carve(bs[0], size);
    }
  }

  lemma {:induction false} NoFitNoAlloc(bs: seq<Block>, size: nat)
    requires forall j :: 0 <= j < |bs| ==> !Fits(bs[j], size)
    ensures Alloc(bs, size) == (None, bs)
    decreases |bs|
  {
    if bs != [] {
      assert forall j :: 0 <= j < |bs[1..]| ==> bs[1..][j] == bs[j + 1];
      NoFitNoAlloc(bs[1..], size);
      assert bs == [bs[0]] + bs[1..];
    }
  }

  lemma {:induction false} AccountsJoin(a: seq<Block>, b: seq<Block>)
    ensures Used(a + b) == Used(a) + Used(b) && Unused(a + b) == Unused(a) + Unused(b)
    ensures LiveCount(a + b) == LiveCount(a) + LiveCount(b)
    decreases |a|
  {
    if a == [] {
      assert a + b == b;
    } else {
      AccountsJoin(a[1..], b);
      assert (a + b)[1..] == a[1..] + b;
    }
  }

  lemma {:induction false} AllocAccounts(bs: seq<Block>, size: nat, k: nat)
    requires FirstFit(bs, size, k)
    ensures Used(Alloc(bs, size).1) == Used(bs) + Carve(bs[k], size)[0].size
    ensures LiveCount(Alloc(bs, size).1) == LiveCount(bs) + 1
  {
    AllocAt(bs, size, k);
    var c := Carve(bs[k], size);
    assert bs == bs[..k] + [bs[k]] + bs[k + 1..];
    AccountsJoin(bs[..k] + [bs[k]], bs[k + 1..]);
    AccountsJoin(bs[..k], [bs[k]]);
    AccountsJoin(bs[..k] + c, bs[k + 1..]);
    AccountsJoin(bs[..k], c);
    CarveAccounts(bs[k], size);
  }

  lemma CarveAccounts(b: Block, size: nat)
    requires Fits(b, size)
    ensures Used(Carve(b, size)) == Carve(b, size)[0].size && LiveCount(Carve(b, size)) == 1
    ensures Used([b]) == 0 && LiveCount([b]) == 0
  {
    var c := Carve(b, size);
    assert [b][1..] == [];
    if |c| == 2 {
      assert c[1..] == [c[1]] && c[1..][1..] == [];
      assert Used(c[1..]) == 0 && LiveCount(c[1..]) == 0;
    } else {
      assert c[1..] == [];
    }
  }

  lemma {:induction false} CoalesceAccounts(bs: seq<Block>)
    ensures Used(Coalesce(bs)) == Used(bs) && LiveCount(Coalesce(bs)) == LiveCount(bs)
    decreases |bs|
  {
    if |bs| >= 2 {
      if bs[0].free && bs[1].free {
        var merged := [Merge(bs[0], bs[1])] + bs[2..];
        assert merged[1..] == bs[2..] == bs[1..][1..];
        CoalesceAccounts(merged);
      } else {
        CoalesceAccounts(bs[1..]);
        assert ([bs[0]] + Coalesce(bs[1..]))[1..] == Coalesce(bs[1..]);
      }
    }
  }

  lemma {:induction false} MarkFreeAccounts(bs: seq<Block>, k: nat)
    requires k < |bs| && !bs[k].free && forall j :: 0 <= j < k ==> bs[j].addr != bs[k].addr
    ensures MarkFree(bs, bs[k].addr) == bs[k := bs[k].(free := true)]
    ensures Used(MarkFree(bs, bs[k].addr)) + bs[k].size == Used(bs)
    ensures LiveCount(MarkFree(bs, bs[k].addr)) + 1 == LiveCount(bs)
    decreases |bs|
  {
    if k > 0 {
      assert bs[1..][k - 1] == bs[k];
      assert forall j :: 0 <= j < k - 1 ==> bs[1..][j] == bs[j + 1];
      MarkFreeAccounts(bs[1..], k - 1);
      assert MarkFree(bs, bs[k].addr)[1..] == MarkFree(bs[1..], bs[k].addr);
    } else {
      assert MarkFree(bs, bs[k].addr)[1..] == bs[1..];
    }
  }
}
