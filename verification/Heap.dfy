/** The kernel heap as it runs (src/kernel/kmalloc.c): headers linked through memory, walked
    and rewritten in place, with its statistics. */
module KernelHeap {
  import opened Common
  import opened HeapBlocks

  /** struct kmalloc_header; next is 0 at the end of the list. */
  datatype Header = Header(size: nat, isFree: bool, next: nat)

  datatype Stats = Stats(allocCount: nat, freeCount: nat, liveAllocations: nat, bytesUsed: nat, peakBytesUsed: nat,
                         bytesFree: nat, largestFreeBlock: nat, failedAllocations: nat)

  class Heap {
    var headers: map<nat, Header>   // the header stored at each address
    var head: nat                   // free_list_head
    var stats: Stats
    ghost var blocks: seq<Block>    // the list the headers form

    static ghost function AddrAt(bs: seq<Block>, k: nat): nat {
      if k < |bs| then bs[k].addr else 0
    }

    static ghost predicate Linked(headers: map<nat, Header>, bs: seq<Block>, k: nat)
      requires k < |bs|
    {
      && bs[k].addr in headers
      && headers[bs[k].addr] == Header(bs[k].size, bs[k].free, AddrAt(bs, k + 1))
    }

    /** The headers from `first` on spell the list bs. */
    static ghost predicate Chain(headers: map<nat, Header>, first: nat, bs: seq<Block>) {
      first == AddrAt(bs, 0) && forall k {:trigger Linked(headers, bs, k)} :: 0 <= k < |bs| ==> Linked(headers, bs, k)
    }

    ghost predicate Valid()
      reads this
    {
      && Chain(headers, head, blocks)
      && HeapOk(blocks)
      && stats.bytesUsed == Used(blocks)
      && stats.liveAllocations == LiveCount(blocks)
      && stats.bytesUsed <= stats.peakBytesUsed
    }

    /** kmalloc_init. */
    constructor ()
      ensures Valid() && blocks == Initial()
      ensures stats == Stats(0, 0, 0, 0, 0, HEAP_SIZE - HEADER, HEAP_SIZE - HEADER, 0)
    {
      headers := map[HEAP_START := Header(HEAP_SIZE - HEADER, true, 0)];
      head := HEAP_START;
      stats := Stats(0, 0, 0, 0, 0, HEAP_SIZE - HEADER, HEAP_SIZE - HEADER, 0);
      blocks := Initial();
      new;
      InitialOk();
      assert Initial()[1..] == [];
      assert Linked(headers, blocks, 0);
    }

    static lemma Distinct(bs: seq<Block>, j: nat, k: nat)
      requires HeapOk(bs) && j < |bs| && k < |bs| && bs[j].addr == bs[k].addr
      ensures j == k
    {
      if j < k {
        BlocksDisjoint(bs, HEAP_START, HEAP_START + HEAP_SIZE, j, k);
      } else if k < j {
        BlocksDisjoint(bs, HEAP_START, HEAP_START + HEAP_SIZE, k, j);
      }
    }

    static lemma Positive(bs: seq<Block>, k: nat)
      requires HeapOk(bs) && k < |bs|
      ensures bs[k].addr >= HEAP_START
    {
      TilesRange(bs, HEAP_START, HEAP_START + HEAP_SIZE);
      assert bs[k] in bs;
    }

    /** kmalloc: the payload address, or 0 when nothing fits. */
    method Kmalloc(request: nat) returns (ptr: nat)
      requires Valid() && request < WORD64
      modifies this
      ensures Valid()
      ensures var (p, after) := Alloc(old(blocks), Round(request));
        && blocks == after
        && (if p.None? then ptr == 0 else ptr == p.value + HEADER)
        && stats.allocCount == old(stats.allocCount) + (if p.Some? then 1 else 0)
        && stats.failedAllocations == old(stats.failedAllocations) + (if p.None? then 1 else 0)
        && stats.freeCount == old(stats.freeCount)
        && stats.peakBytesUsed == (if stats.bytesUsed > old(stats.peakBytesUsed) then stats.bytesUsed else old(stats.peakBytesUsed))
    {
      var size := (request + 7) % WORD64 / 8 * 8;
      var curr := head;
      ghost var k := 0;
      while curr != 0
        invariant Valid() && blocks == old(blocks) && stats == old(stats)
        invariant k <= |blocks| && curr == AddrAt(blocks, k)
        invariant forall j :: 0 <= j < k ==> !Fits(blocks[j], size)
        invariant k == |blocks| ==> curr == 0
        decreases |blocks| - k
      {
        assert k < |blocks| && Linked(headers, blocks, k);
        if headers[curr].isFree && headers[curr].size >= size {
          Take(curr, size, k);
          return curr + HEADER;
        }
        curr := headers[curr].next;
        k := k + 1;
        if k < |blocks| { Positive(blocks, k); }
      }
      if k < |blocks| { Positive(blocks, k); }
      NoFitNoAlloc(blocks, size);
      stats := stats.(failedAllocations := stats.failedAllocations + 1);
      ptr := 0;
    }

    /** The body of kmalloc once a block is chosen: split it if there is room, and account. */
    method Take(curr: nat, size: nat, ghost k: nat)
      requires Valid() && size % 8 == 0
      requires FirstFit(blocks, size, k) && curr == blocks[k].addr
      modifies this
      ensures Valid()
      ensures (Some(curr), blocks) == Alloc(old(blocks), size)
      ensures stats.allocCount == old(stats.allocCount) + 1 && stats.failedAllocations == old(stats.failedAllocations)
      ensures stats.freeCount == old(stats.freeCount)
      ensures stats.peakBytesUsed == (if stats.bytesUsed > old(stats.peakBytesUsed) then stats.bytesUsed else old(stats.peakBytesUsed))
    {
      ghost var was, before := blocks, headers;
      AllocAt(was, size, k);
      AllocAccounts(was, size, k);
      AllocKeeps(was, size, HEAP_START, HEAP_START + HEAP_SIZE);
      assert Linked(headers, was, k);
      var h := headers[curr];
      if h.size >= size + HEADER + 8 {
        var rest := curr + HEADER + size;
        headers := headers[rest := Header(h.size - size - HEADER, true, h.next)];
        headers := headers[curr := Header(size, false, rest)];
      } else {
        headers := headers[curr := h.(isFree := false)];
      }
      blocks := Alloc(was, size).1;
      CarvedChain(before, headers, was, size, k);
      var used := stats.bytesUsed + headers[curr].size;
      stats := stats.(allocCount := stats.allocCount + 1, liveAllocations := stats.liveAllocations + 1, bytesUsed := used,
                      peakBytesUsed := if used > stats.peakBytesUsed then used else stats.peakBytesUsed);
    }

    static lemma CarvedChain(before: map<nat, Header>, after: map<nat, Header>, bs: seq<Block>, size: nat, k: nat)
      requires HeapOk(bs) && FirstFit(bs, size, k) && Chain(before, AddrAt(bs, 0), bs)
      requires var h, b := Header(bs[k].size, true, AddrAt(bs, k + 1)), bs[k];
        after == if b.size >= size + HEADER + 8
                 then before[b.addr + HEADER + size := Header(h.size - size - HEADER, true, h.next)]
                            [b.addr := Header(size, false, b.addr + HEADER + size)]
                 else before[b.addr := h.(isFree := false)]
      ensures Chain(after, AddrAt(bs, 0), bs[..k] + Carve(bs[k], size) + bs[k + 1..])
    {
      var c := Carve(bs[k], size);
      var cs := bs[..k] + c + bs[k + 1..];
      forall j | 0 <= j < |cs| ensures Linked(after, cs, j) {
        if j < k {
          Outside(bs, j, k);
          assert Linked(before, bs, j);
        } else if j >= k + |c| {
          assert cs[j] == bs[j - |c| + 1];
          Outside(bs, j - |c| + 1, k);
          assert Linked(before, bs, j - |c| + 1);
        } else {
          assert cs[j] == c[j - k];
        }
      }
    }

    /** Another block's header is not inside block k. */
    static lemma Outside(bs: seq<Block>, j: nat, k: nat)
      requires HeapOk(bs) && j < |bs| && k < |bs| && j != k
      ensures bs[j].addr < bs[k].addr || bs[j].addr >= bs[k].addr + HEADER + bs[k].size
    {
      if j < k {
        BlocksDisjoint(bs, HEAP_START, HEAP_START + HEAP_SIZE, j, k);
      } else {
        BlocksDisjoint(bs, HEAP_START, HEAP_START + HEAP_SIZE, k, j);
      }
    }

    // ------------------------------------------------------------ freeing

    /** kfree of a null pointer or of a payload whose header is still in the list; a block that
        is already free is left alone. The guards on the statistics never saturate. */
    method Kfree(ptr: nat)
      requires Valid()
      requires ptr == 0 || exists k :: 0 <= k < |blocks| && ptr == blocks[k].addr + HEADER
      modifies this
      ensures Valid()
      ensures ptr == 0 ==> blocks == old(blocks) && stats == old(stats)
      ensures ptr != 0 ==> blocks == Free(old(blocks), ptr - HEADER)
      ensures stats.freeCount == old(stats.freeCount) + (if blocks != old(blocks) then 1 else 0)
      ensures stats.allocCount == old(stats.allocCount) && stats.peakBytesUsed == old(stats.peakBytesUsed)
      ensures stats.failedAllocations == old(stats.failedAllocations)
    {
      if ptr == 0 {
        return;
      }
      ghost var k :| 0 <= k < |blocks| && ptr == blocks[k].addr + HEADER;
      ghost var was, before := blocks, headers;
      var header := ptr - HEADER;
      assert Linked(headers, was, k);
      if headers[header].isFree {
        assert was[k] in was;
        return;
      }
      OnlyOneAt(was, k);
      headers := headers[header := headers[header].(isFree := true)];
      MarkFreeAccounts(was, k);
      MarkedChain(before, headers, was, k);
      UsedAtLeast(was, k);
      var live, used := stats.liveAllocations, stats.bytesUsed;
      if live > 0 {
        live := live - 1;
      }
      if used >= headers[header].size {
        used := used - headers[header].size;
      } else {
        used := 0;
      }
      stats := stats.(freeCount := stats.freeCount + 1, liveAllocations := live, bytesUsed := used);
      ghost var marked := MarkFree(was, header);
      MarkFreeKeeps(was, header, HEAP_START, HEAP_START + HEAP_SIZE);
      CoalesceKeeps(marked, HEAP_START, HEAP_START + HEAP_SIZE);
      CoalesceAccounts(marked);
      FreeKeeps(was, header);
      LiveShrinks(was, k);
      MergeFree(marked);
    }

    /** The coalescing loop of kfree. */
    method MergeFree(ghost marked: seq<Block>)
      requires Chain(headers, head, marked) && Tiles(marked, HEAP_START, HEAP_START + HEAP_SIZE)
      modifies this`headers, this`blocks
      ensures blocks == Coalesce(marked) && Chain(headers, head, blocks)
    {
      ghost var bs, k := marked, 0;
      var curr := head;
      if curr != 0 { assert Linked(headers, bs, 0); }
      while curr != 0 && headers[curr].next != 0
        invariant Chain(headers, head, bs) && Tiles(bs, HEAP_START, HEAP_START + HEAP_SIZE)
        invariant k <= |bs| && curr == AddrAt(bs, k) && (k == |bs| ==> bs == [])
        invariant curr != 0 ==> k < |bs| && curr in headers
        invariant bs[..k] + Coalesce(bs[k..]) == Coalesce(marked)
        decreases |bs| - k
      {
        var next := headers[curr].next;
        assert Linked(headers, bs, k);
        assert k + 1 < |bs| && Linked(headers, bs, k + 1);
        if headers[curr].isFree && headers[next].isFree {
          ghost var joined := bs[..k] + [Merge(bs[k], bs[k + 1])] + bs[k + 2..];
          ghost var before := headers;
          headers := headers[curr := Header(headers[curr].size + headers[next].size + HEADER, true, headers[next].next)];
          MergedChain(before, headers, head, bs, k);
          MergedTiles(bs, k, HEAP_START, HEAP_START + HEAP_SIZE);
          MergedRest(bs, k);
          bs := joined;
          assert Linked(headers, bs, k);
        } else {
          SkippedRest(bs, k);
          curr := next;
          k := k + 1;
        }
      }
      if k < |bs| {
        TilesRange(bs, HEAP_START, HEAP_START + HEAP_SIZE);
        assert forall j :: 0 <= j < |bs| ==> bs[j] in bs;
        assert Linked(headers, bs, k);
        assert Coalesce(bs[k..]) == bs[k..];
      }
      assert bs[..k] + bs[k..] == bs;
      blocks := bs;
    }

    static lemma {:induction false} MergedChain(before: map<nat, Header>, after: map<nat, Header>, first: nat, bs: seq<Block>, k: nat)
      requires k + 1 < |bs| && Chain(before, first, bs) && Tiles(bs, HEAP_START, HEAP_START + HEAP_SIZE)
      requires after == before[bs[k].addr := Header(bs[k].size + bs[k + 1].size + HEADER, true, AddrAt(bs, k + 2))]
      requires bs[k].free
      ensures Chain(after, first, bs[..k] + [Merge(bs[k], bs[k + 1])] + bs[k + 2..])
    {
      var cs := bs[..k] + [Merge(bs[k], bs[k + 1])] + bs[k + 2..];
      forall j | 0 <= j < |cs| ensures Linked(after, cs, j) {
        if j < k {
          BlocksDisjoint(bs, HEAP_START, HEAP_START + HEAP_SIZE, j, k);
          assert Linked(before, bs, j);
        } else if j > k {
          assert cs[j] == bs[j + 1];
          BlocksDisjoint(bs, HEAP_START, HEAP_START + HEAP_SIZE, k, j + 1);
          assert Linked(before, bs, j + 1);
        }
      }
    }

    static lemma {:induction false} MergedTiles(bs: seq<Block>, k: nat, start: nat, end: nat)
      requires k + 1 < |bs| && Tiles(bs, start, end)
      ensures Tiles(bs[..k] + [Merge(bs[k], bs[k + 1])] + bs[k + 2..], start, end)
      decreases k
    {
      var cs := bs[..k] + [Merge(bs[k], bs[k + 1])] + bs[k + 2..];
      if k == 0 {
        assert cs[1..] == bs[1..][1..];
      } else {
        MergedTiles(bs[1..], k - 1, start + HEADER + bs[0].size, end);
        assert cs[1..] == bs[1..][..k - 1] + [Merge(bs[k], bs[k + 1])] + bs[1..][k + 1..];
      }
    }

    static lemma MergedRest(bs: seq<Block>, k: nat)
      requires k + 1 < |bs| && bs[k].free && bs[k + 1].free
      ensures var cs := bs[..k] + [Merge(bs[k], bs[k + 1])] + bs[k + 2..];
        cs[..k] == bs[..k] && Coalesce(cs[k..]) == Coalesce(bs[k..])
    {
      var cs := bs[..k] + [Merge(bs[k], bs[k + 1])] + bs[k + 2..];
      assert cs[k..] == [Merge(bs[k], bs[k + 1])] + bs[k..][2..];
    }

    static lemma SkippedRest(bs: seq<Block>, k: nat)
      requires k + 1 < |bs| && !(bs[k].free && bs[k + 1].free)
      ensures bs[..k] + Coalesce(bs[k..]) == bs[..k + 1] + Coalesce(bs[k + 1..])
    {
      assert bs[k..][1..] == bs[k + 1..];
    }

    static lemma OnlyOneAt(bs: seq<Block>, k: nat)
      requires HeapOk(bs) && k < |bs| && !bs[k].free
      ensures !exists b :: b in bs && b.addr == bs[k].addr && b.free
      ensures forall j :: 0 <= j < k ==> bs[j].addr != bs[k].addr
    {
      forall b | b in bs && b.addr == bs[k].addr ensures b == bs[k] {
        AddressUnique(bs, b, bs[k]);
      }
      forall j | 0 <= j < k ensures bs[j].addr != bs[k].addr {
        BlocksDisjoint(bs, HEAP_START, HEAP_START + HEAP_SIZE, j, k);
      }
    }

    static lemma MarkedChain(before: map<nat, Header>, after: map<nat, Header>, bs: seq<Block>, k: nat)
      requires HeapOk(bs) && k < |bs| && Chain(before, AddrAt(bs, 0), bs)
      requires after == before[bs[k].addr := Header(bs[k].size, true, AddrAt(bs, k + 1))]
      ensures Chain(after, AddrAt(bs, 0), bs[k := bs[k].(free := true)])
    {
      var cs := bs[k := bs[k].(free := true)];
      forall j | 0 <= j < |cs| ensures Linked(after, cs, j) {
        assert Linked(before, bs, j);
        if j != k { Outside(bs, j, k); }
      }
    }

    static lemma {:induction false} UsedAtLeast(bs: seq<Block>, k: nat)
      requires k < |bs| && !bs[k].free
      ensures Used(bs) >= bs[k].size && LiveCount(bs) >= 1
      decreases k
    {
      if k > 0 { UsedAtLeast(bs[1..], k - 1); }
    }

    static lemma LiveShrinks(bs: seq<Block>, k: nat)
      requires HeapOk(bs) && k < |bs| && !bs[k].free
      ensures Free(bs, bs[k].addr) != bs
    {
      FreeKeeps(bs, bs[k].addr);
      assert bs[k] in bs;
      assert (bs[k].addr, bs[k].size) in Live(bs);
    }

    // ------------------------------------------------------------ statistics

    /** kmalloc_get_stats: the free-space figures are recomputed from the list. */
    method GetStats() returns (out: Stats)
      requires Valid()
      modifies this`stats
      ensures Valid() && out == stats
      ensures out == old(stats).(bytesFree := Unused(blocks), largestFreeBlock := out.largestFreeBlock)
      ensures forall k :: 0 <= k < |blocks| && blocks[k].free ==> blocks[k].size <= out.largestFreeBlock
      ensures out.largestFreeBlock == 0 || exists k :: 0 <= k < |blocks| && blocks[k].free && blocks[k].size == out.largestFreeBlock
      ensures out.bytesUsed + out.bytesFree + HEADER * |blocks| == HEAP_SIZE
    {
      var bytesFree, largest := 0, 0;
      var curr := head;
      ghost var k := 0;
      assert blocks[..0] == [];
      while curr != 0
        invariant k <= |blocks| && curr == AddrAt(blocks, k) && (curr != 0 ==> k < |blocks|)
        invariant bytesFree == Unused(blocks[..k])
        invariant forall j :: 0 <= j < k && blocks[j].free ==> blocks[j].size <= largest
        invariant largest == 0 || exists j :: 0 <= j < k && blocks[j].free && blocks[j].size == largest
        invariant Valid() && stats == old(stats)
        decreases |blocks| - k
      {
        assert Linked(headers, blocks, k);
        if headers[curr].isFree {
          bytesFree := bytesFree + headers[curr].size;
          if headers[curr].size > largest {
            largest := headers[curr].size;
          }
        }
        assert blocks[..k + 1] == blocks[..k] + [blocks[k]];
        AccountsJoin(blocks[..k], [blocks[k]]);
        assert [blocks[k]][1..] == [];
        curr := headers[curr].next;
        k := k + 1;
      }
      if k < |blocks| { Positive(blocks, k); }
      assert blocks[..k] == blocks;
      BytesAddUp(blocks, HEAP_START, HEAP_START + HEAP_SIZE);
      stats := stats.(bytesFree := bytesFree, largestFreeBlock := largest);
      out := stats;
    }
  }
}
