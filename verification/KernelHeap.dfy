/** The kernel heap of mm/heap.c: headers live in mapped heap words, reached through the
    page tables, and growth takes pages from the page allocator. */
module KernelHeap {
  import opened Division
  import opened Errno
  import opened HeapBlocks
  import opened HeapLinks
  import opened PageTree
  import VM = VirtualMemory
  import Runs = HeapRuns

  lemma TailAligned(addr: int, size: int, d: int)
    requires addr % ALIGNMENT == 0 && GoodSize(size)
    ensures (addr + HEADER + size + 8 * d) % 8 == 0
  {
    assert addr == 16 * (addr / 16) && size == 16 * (size / 16);
    Unique(addr + HEADER + size + 8 * d, 8, 2 * (addr / 16) + 4 + 2 * (size / 16) + d, 0);
  }

  /** The first fit is the only index with nothing suitable before it. */
  lemma FirstFitUnique(bs: seq<Block>, size: int, i: nat)
    requires i <= |bs| && (i < |bs| ==> bs[i].free && bs[i].size >= size)
    requires forall k :: 0 <= k < i ==> !(bs[k].free && bs[k].size >= size)
    ensures i == FirstFit(bs, size)
  {
  }

  lemma WordAligned(a: int, d: int)
    requires a % 4096 == 0
    ensures (a + 8 * d) % 8 == 0
  {
  }

  /** The first header of a fresh page is mapped. */
  lemma PageMapped(w: Words, n: int, a: int)
    requires VM.AllMapped(w, n) && VM.HEAP_BASE <= a && a % 4096 == 0 && a + HEADER <= VM.HEAP_BASE + 4096 * n
    ensures forall d :: 0 <= d < 4 ==> a + 8 * d in w
  {
    forall d | 0 <= d < 4
      ensures a + 8 * d in w
    {
      WordAligned(a, d);
    }
  }

  /** The bytes that the header of a block added by heap_extend() claims, its own included. */
  function Claimed(bytes: int): int { HEADER + (bytes - HEADER) % LIMIT }

  lemma ClaimedIs(bytes: int)
    requires bytes == 0 || GoodGrowth(bytes)
    ensures Claimed(bytes) == if bytes == 0 then LIMIT else bytes
  {
  }

  lemma WrappedSum(end: int, bytes: int)
    requires 0 <= end < LIMIT && 0 <= bytes < LIMIT && !Fits(end, bytes)
    ensures (end + bytes) % LIMIT <= end
  {
  }

  /** The machine as a growth of the heap sees it: memory, mapped heap pages and free pages. */
  datatype Pages = Pages(phys: Phys, root: int, leaves: seq<int>, free: nat) {
    /** Where the pages mapped for the heap end. */
    function Mapped(): int { VM.HeapPage(|leaves|) }
  }

  /** The heap ends where its pages end, and the free pages suffice for `bytes` more: for the leaves
      and for the tables that are missing on the way to them. */
  predicate CanGrow(p: Pages, end: int, bytes: nat) {
    end == p.Mapped() && VM.PagesNeeded(p.phys, p.root, |p.leaves|, bytes / 4096) <= p.free
  }

  /** What heap_extend() returns for a growth that fits: with pages left mapped past the end of the
      heap, the first page is taken already, if there is a page to try. */
  function GrowthCode(p: Pages, end: int, bytes: nat): int {
    if CanGrow(p, end, bytes) then 0 else if end < p.Mapped() && p.free > 0 then -EEXIST else -ENOMEM
  }

  ghost predicate ShowGrowth(i: int) { true }

  /** What a growth that fits does to the pages. From a heap that ends where its pages end it maps
      as many as the free pages allow; kept folded. */
  ghost predicate GrowthDone(p: Pages, leaves: seq<int>, free: nat, end: int, bytes: nat) {
    forall i {:trigger ShowGrowth(i)} :: ShowGrowth(i) ==>
      && |p.leaves| <= |leaves| && (end < p.Mapped() ==> leaves == p.leaves)
      && (end == p.Mapped() ==> VM.Largest(p.phys, p.root, |p.leaves|, bytes / 4096, p.free, |leaves| - |p.leaves|))
      && (CanGrow(p, end, bytes) <==> end == p.Mapped() && VM.HeapPage(|leaves|) == end + bytes)
      && (CanGrow(p, end, bytes) ==> free == p.free - VM.PagesNeeded(p.phys, p.root, |p.leaves|, bytes / 4096))
      && (end == p.Mapped() ==> VM.HeapPage(|leaves|) <= end + bytes)
  }

  /** What map_heap_range() does, seen from the end of the heap, which is heap page k. */
  lemma RangeIsGrowth(p: Pages, leaves: seq<int>, free: nat, end: int, bytes: nat, ret: int, k: nat)
    requires end == VM.HeapPage(k) && k <= |p.leaves| <= |leaves| && bytes > 0 && bytes % 4096 == 0
    requires k < |p.leaves| ==> ret == (if p.free == 0 then -ENOMEM else -EEXIST) && leaves == p.leaves
    requires k == |p.leaves| ==>
      && ret == (if VM.PagesNeeded(p.phys, p.root, k, bytes / 4096) <= p.free then 0 else -ENOMEM)
      && VM.Largest(p.phys, p.root, k, bytes / 4096, p.free, |leaves| - k) && (ret == 0 <==> VM.HeapPage(|leaves|) == end + bytes)
      && (ret == 0 ==> free == p.free - VM.PagesNeeded(p.phys, p.root, k, bytes / 4096))
    ensures ret == GrowthCode(p, end, bytes) && GrowthDone(p, leaves, free, end, bytes)
  {
    assert VM.ShowLargest(0);
  }

  /** The bytes that a growth mapped. */
  lemma GrowthGot(p: Pages, leaves: seq<int>, free: nat, end: int, bytes: nat)
    requires GrowthDone(p, leaves, free, end, bytes) && end <= p.Mapped()
    ensures var got := VM.HeapPage(|leaves|) - p.Mapped();
      if CanGrow(p, end, bytes) then end == p.Mapped() && got == bytes
      else if end < p.Mapped() then got == 0 && leaves == p.leaves
      else 0 <= got < bytes
  {
    assert ShowGrowth(0);
  }

  /** What a request comes to, once the search and the pages are known. */
  lemma RequestOutcome(h: Runs.Heap, p: Pages, leaves: seq<int>, free: nat, size: int, grown: bool, bs: seq<Block>, end: int, i: nat)
    requires Runs.Inv(h) && h.end <= p.Mapped() && 0 < size <= LIMIT - 16 && Runs.Roomy(h, size)
    requires (bs, end) == Runs.Searched(h, RoundUp(size, ALIGNMENT), grown) && i == FirstFit(bs, RoundUp(size, ALIGNMENT))
    requires !Unfit(h.bs, size) ==> !grown && leaves == p.leaves
    requires Unfit(h.bs, size) ==>
      && GrowBytes(RoundUp(size, ALIGNMENT)) >= 0 && grown == CanGrow(p, h.end, GrowBytes(RoundUp(size, ALIGNMENT)))
      && GrowthDone(p, leaves, free, h.end, GrowBytes(RoundUp(size, ALIGNMENT)))
    ensures var s, h' := Runs.System(h, p.Mapped()), Runs.MallocStep(h, size, grown);
      var e := Runs.Alloc(size, VM.HeapPage(|leaves|) - p.Mapped());
      Runs.Possible(s, e) && Runs.Next(s, e) == Runs.System(h', VM.HeapPage(|leaves|)) && Runs.Inv(h')
    ensures i == |bs| <==> Unfit(h.bs, size) && (size > LIMIT - 32 || !grown)
    ensures i == |bs| ==> Runs.MallocStep(h, size, grown) == Runs.Heap(bs, end, h.live)
    ensures i < |bs| ==> bs[i].Payload() !in h.live
    ensures i < |bs| ==> Runs.MallocStep(h, size, grown) == Runs.Heap(Take(bs, i, RoundUp(size, ALIGNMENT)), end, h.live[bs[i].Payload() := size])
    ensures h.end < p.Mapped() ==> !grown && leaves == p.leaves
  {
    var got := VM.HeapPage(|leaves|) - p.Mapped();
    if Unfit(h.bs, size) {
      GrowthGot(p, leaves, free, h.end, GrowBytes(RoundUp(size, ALIGNMENT)));
    }
    Runs.MallocOutcome(Runs.System(h, p.Mapped()), size, grown, got);
    Runs.MallocIs(h, size, grown, bs, end, i);
    Runs.PayloadPositive(h, size, grown, bs, end, i);
  }

  predicate Unfit(bs: seq<Block>, size: int) {
    FirstFit(bs, RoundUp(size, ALIGNMENT)) == |bs|
  }

  /** `Heap.Lost` stays folded in a proof until it mentions `ShowLost`. */
  ghost predicate ShowLost(i: int) { true }

  class Heap {
    const vm: VM.Machine
    var heapFirst: int
    var heapLast: int
    var heapEnd: int
    ghost var blocks: seq<Block>
    ghost var live: map<int, int>

    /** The mapped heap words link exactly the tiled list `blocks`. */
    ghost predicate Listed() reads this, vm {
      && vm.Valid()
      && ListOk(vm.words, blocks, heapFirst, heapLast, VM.HEAP_BASE, heapEnd)
      && heapEnd <= VM.HEAP_BASE + 4096 * |vm.leaves|
    }

    ghost function State(): Pages reads vm { Pages(vm.phys, vm.root, vm.leaves, |vm.free|) }

    /** Where the pages mapped for the heap end. */
    ghost function Mapped(): int reads vm { VM.HEAP_BASE + 4096 * |vm.leaves| }

    /** A growth that failed half-way has left pages mapped past the end of the heap. */
    ghost predicate Stale() reads this, vm { heapEnd < Mapped() }

    constructor (vm: VM.Machine)
      requires vm.Valid()
      ensures this.vm == vm && Valid() && blocks == [] && live == map[] && heapEnd == VM.HEAP_BASE
    {
      this.vm := vm;
      heapFirst, heapLast, heapEnd := 0, 0, VM.HEAP_BASE;
      blocks, live := [], map[];
    }

    /** The stores of block_merge_next(). */
    method StoreMerge(block: int, size: int, nextNext: int)
      requires vm.Valid() && block in vm.words && block + 24 in vm.words && (nextNext != 0 ==> nextNext + 16 in vm.words)
      requires 0 <= size < VM.ADDRESS_LIMIT && 0 <= nextNext < VM.ADDRESS_LIMIT && 0 <= block < VM.ADDRESS_LIMIT
      modifies this`heapLast, vm`phys, vm`words
      ensures vm.Valid() && vm.words == MergeWrites(old(vm.words), block, size, nextNext)
      ensures heapLast == if nextNext == 0 then block else old(heapLast)
    {
      vm.Store(block, size);
      vm.Store(block + 24, nextNext);
      if nextNext != 0 {
        vm.Store(nextNext + 16, block);
      } else {
        heapLast := block;
      }
    }

    method BlockMergeNext(block: int, ghost i: nat)
      requires Listed() && i < |blocks| && block == blocks[i].addr
      modifies this`heapLast, this`blocks, vm`phys, vm`words
      ensures Listed()
      ensures blocks == Merge(old(blocks), i)
      ensures Preserved(old(blocks), old(vm.words), vm.words)
    {
      PreservedRefl(blocks, vm.words);
      OkHeader(vm.words, blocks, heapFirst, heapLast, VM.HEAP_BASE, heapEnd, i);
      var next := vm.Load(block + 24);
      if next == 0 {
        return;
      }
      OkHeader(vm.words, blocks, heapFirst, heapLast, VM.HEAP_BASE, heapEnd, i + 1);
      var nextFree := vm.Load(next + 8);
      if nextFree == 0 {
        return;
      }
      var size := vm.Load(block);
      var nextSize := vm.Load(next);
      var nextNext := vm.Load(next + 24);
      OkMerge(vm.words, blocks, heapFirst, heapLast, VM.HEAP_BASE, heapEnd, i);
      if i + 2 < |blocks| {
        OkHeader(vm.words, blocks, heapFirst, heapLast, VM.HEAP_BASE, heapEnd, i + 2);
      }
      StoreMerge(block, size + HEADER + nextSize, nextNext);
      blocks := Merge(blocks, i);
    }

    /** The stores of block_split() and block_insert_after(). */
    method StoreSplit(block: int, tail: int, size: int, tailSize: int)
      requires vm.Valid() && block in vm.words && block + 24 in vm.words
      requires forall d :: 0 <= d < 4 ==> tail + 8 * d in vm.words
      requires vm.words[block + 24] != 0 ==> vm.words[block + 24] + 16 in vm.words
      requires block + HEADER <= tail && 0 <= block && tail < LIMIT && 0 <= size < LIMIT && 0 <= tailSize < LIMIT
      requires 0 <= vm.words[block + 24] < LIMIT
      modifies this`heapLast, vm`phys, vm`words
      ensures vm.Valid()
      ensures vm.words == SplitWrites(old(vm.words), block, tail, size, tailSize, old(vm.words[block + 24]))
      ensures heapLast == if old(vm.words[block + 24]) == 0 then tail else old(heapLast)
    {
      assert tail + 8 * 0 in vm.words && tail + 8 * 1 in vm.words && tail + 8 * 2 in vm.words && tail + 8 * 3 in vm.words;
      vm.Store(tail, tailSize);
      vm.Store(tail + 8, 1);
      vm.Store(block, size);
      BlockInsertAfter(block, tail);
    }

    method BlockInsertAfter(block: int, next: int)
      requires vm.Valid() && block + 24 in vm.words && next + 16 in vm.words && next + 24 in vm.words
      requires block + HEADER <= next && 0 <= block && next < LIMIT
      requires 0 <= vm.words[block + 24] < LIMIT && (vm.words[block + 24] != 0 ==> vm.words[block + 24] + 16 in vm.words)
      modifies this`heapLast, vm`phys, vm`words
      ensures vm.Valid()
      ensures var after := old(vm.words[block + 24]);
              var w := old(vm.words)[next + 16 := block][next + 24 := after];
              vm.words == (if after != 0 then w[after + 16 := next] else w)[block + 24 := next]
      ensures heapLast == if old(vm.words[block + 24]) == 0 then next else old(heapLast)
    {
      var after := vm.Load(block + 24);
      vm.Store(next + 16, block);
      vm.Store(next + 24, after);
      if after != 0 {
        vm.Store(after + 16, next);
      } else {
        heapLast := next;
      }
      vm.Store(block + 24, next);
    }

    method BlockSplit(block: int, size: int, ghost i: nat)
      requires Listed() && i < |blocks| && block == blocks[i].addr && blocks[i].free
      requires GoodSize(size)
      modifies this`heapLast, this`blocks, vm`phys, vm`words
      ensures Listed()
      ensures blocks == Split(old(blocks), i, size)
      ensures Preserved(old(blocks), old(vm.words), vm.words)
    {
      PreservedRefl(blocks, vm.words);
      OkHeader(vm.words, blocks, heapFirst, heapLast, VM.HEAP_BASE, heapEnd, i);
      var whole := vm.Load(block);
      if whole < size + HEADER + ALIGNMENT {
        return;
      }
      OkSplit(vm.words, blocks, heapFirst, heapLast, VM.HEAP_BASE, heapEnd, i, size);
      if i + 1 < |blocks| {
        OkHeader(vm.words, blocks, heapFirst, heapLast, VM.HEAP_BASE, heapEnd, i + 1);
      }
      TailMapped(i, size);
      StoreSplit(block, block + HEADER + size, size, whole - size - HEADER);
      blocks := Split(blocks, i, size);
    }

    /** The words of the tail header lie in mapped pages. */
    lemma TailMapped(i: nat, size: int)
      requires Listed() && i < |blocks| && GoodSize(size) && blocks[i].size >= size + HEADER + ALIGNMENT
      ensures forall d :: 0 <= d < 4 ==> blocks[i].addr + HEADER + size + 8 * d in vm.words
    {
      assert ShowList(0);
      vm.WordsMapped();
      Aligned(blocks, VM.HEAP_BASE, heapEnd, i);
      AddressPositive(blocks, VM.HEAP_BASE, heapEnd, i);
      forall d | 0 <= d < 4
        ensures blocks[i].addr + HEADER + size + 8 * d in vm.words
      {
        TailAligned(blocks[i].addr, size, d);
      }
    }

    /** find_free_block(): first fit. */
    method FindFreeBlock(size: int) returns (block: int, ghost i: nat)
      requires Listed()
      ensures i == FirstFit(blocks, size)
      ensures block == if i < |blocks| then blocks[i].addr else 0
      ensures block == if FirstFit(blocks, size) < |blocks| then blocks[FirstFit(blocks, size)].addr else 0
      ensures block == 0 <==> i == |blocks|
    {
      i := 0;
      block := heapFirst;
      HeadOfList();
      while block != 0
        invariant i <= |blocks|
        invariant block == if i < |blocks| then blocks[i].addr else 0
        invariant block == 0 <==> i == |blocks|
        invariant forall k :: 0 <= k < i ==> !(blocks[k].free && blocks[k].size >= size)
        decreases |blocks| - i
      {
        OkHeader(vm.words, blocks, heapFirst, heapLast, VM.HEAP_BASE, heapEnd, i);
        var free := vm.Load(block + 8);
        var blockSize := vm.Load(block);
        if free != 0 && blockSize >= size {
          FirstFitUnique(blocks, size, i);
          return;
        }
        block := vm.Load(block + 24);
        i := i + 1;
      }
      FirstFitUnique(blocks, size, i);
    }

    lemma HeadOfList()
      requires Listed()
      ensures heapFirst == if blocks == [] then 0 else blocks[0].addr
      ensures blocks != [] ==> blocks[0].addr != 0
    {
      assert ShowList(0);
    }

    /** The stores of heap_extend() for the new block. */
    method StoreAppend(block: int, size: int)
      requires vm.Valid() && (forall d :: 0 <= d < 4 ==> block + 8 * d in vm.words)
      requires heapLast != 0 ==> heapLast + 24 in vm.words
      requires 0 < block < LIMIT && 0 <= size < LIMIT && 0 <= heapLast < LIMIT
      modifies this`heapFirst, this`heapLast, vm`phys, vm`words
      ensures vm.Valid() && vm.words == AppendWrites(old(vm.words), block, size, old(heapLast))
      ensures heapLast == block && heapFirst == if old(heapLast) == 0 then block else old(heapFirst)
    {
      assert block + 8 * 0 in vm.words && block + 8 * 1 in vm.words && block + 8 * 2 in vm.words && block + 8 * 3 in vm.words;
      vm.Store(block, size);
      vm.Store(block + 8, 1);
      vm.Store(block + 16, heapLast);
      vm.Store(block + 24, 0);
      if heapLast != 0 {
        vm.Store(heapLast + 24, block);
      } else {
        heapFirst := block;
      }
      heapLast := block;
    }

    /** Map and append `bytes` more at the end of the heap. A growth that is empty or reaches the
        top of the address space is lost: map_heap_range() maps nothing and reports success, the
        end of the heap wraps, and the new header is not in a mapped page, unless the heap was
        stale. */
    method AppendBlock(bytes: int) returns (ret: int, lost: bool)
      requires Listed() && (bytes == 0 || GoodGrowth(bytes))
      modifies this, vm
      ensures vm.Valid() && vm.held == old(vm.held) && live == old(live)
      ensures lost <==> !Fits(old(heapEnd), bytes)
      ensures lost ==> Lost(old(heapEnd), bytes, old(Stale())) && ret == 0 && State() == old(State()) && blocks == old(blocks)
      ensures !lost ==> Listed() && Preserved(old(blocks), old(vm.words), vm.words)
      ensures !lost ==> ret == GrowthCode(old(State()), old(heapEnd), bytes) && GrowthDone(old(State()), vm.leaves, |vm.free|, old(heapEnd), bytes)
      ensures !lost && ret == 0 ==> heapEnd == old(heapEnd) + bytes && blocks == old(blocks) + [Block(old(heapEnd), bytes - HEADER, true)]
      ensures !lost && ret != 0 ==> heapEnd == old(heapEnd) && blocks == old(blocks)
    {
      EndOfList();
      ret := MapMore(bytes);
      lost := !Fits(heapEnd, bytes);
      if lost {
        NotBacked(heapEnd, bytes);
        WrappedSum(heapEnd, bytes);
        heapEnd := (heapEnd + bytes) % LIMIT;
      } else if ret == 0 {
        assert ShowGrowth(0);
        ghost var w := vm.words;
        LinkLast(bytes);
        PreservedTwice(old(blocks), old(blocks), old(vm.words), w, vm.words);
      }
    }

    /** map_heap_range() from the end of the heap, as the heap sees it. */
    method MapMore(bytes: int) returns (ret: int)
      requires Listed() && 0 <= bytes < LIMIT && bytes % PAGE == 0
      modifies vm
      ensures Listed() && vm.held == old(vm.held) && Mapped() < LIMIT
      ensures Preserved(blocks, old(vm.words), vm.words)
      ensures !Fits(heapEnd, bytes) ==> ret == 0 && State() == old(State())
      ensures Fits(heapEnd, bytes) ==> ret == GrowthCode(old(State()), heapEnd, bytes) && GrowthDone(old(State()), vm.leaves, |vm.free|, heapEnd, bytes)
    {
      ghost var k0 := EndPage();
      ret := vm.MapHeapRange(heapEnd, bytes, k0);
      vm.WordsMapped();
      OkMoreWords(old(vm.words), vm.words, blocks, heapFirst, heapLast, VM.HEAP_BASE, heapEnd);
      if Fits(heapEnd, bytes) {
        RangeIsGrowth(old(State()), vm.leaves, |vm.free|, heapEnd, bytes, ret, k0);
      }
    }

    /** The heap ends where one of its pages begins. */
    lemma EndPage() returns (k: nat)
      requires Listed()
      ensures heapEnd == VM.HeapPage(k) && k <= |vm.leaves|
    {
      EndOfList();
      k := (heapEnd - VM.HEAP_BASE) / 4096;
    }

    /** The stores of heap_extend() for a block that is mapped, and the new end. */
    method LinkLast(bytes: int)
      requires Listed() && GoodGrowth(bytes) && heapEnd + bytes == Mapped() < LIMIT
      modifies this`heapFirst, this`heapLast, this`heapEnd, this`blocks, vm`phys, vm`words
      ensures Listed() && Preserved(old(blocks), old(vm.words), vm.words)
      ensures heapEnd == old(heapEnd) + bytes && blocks == old(blocks) + [Block(old(heapEnd), bytes - HEADER, true)]
    {
      EndOfList();
      GrowthSize(bytes);
      vm.WordsMapped();
      OkAppend(vm.words, blocks, heapFirst, heapLast, VM.HEAP_BASE, heapEnd, bytes);
      PageMapped(vm.words, |vm.leaves|, heapEnd);
      StoreAppend(heapEnd, bytes - HEADER);
      blocks := blocks + [Block(heapEnd, bytes - HEADER, true)];
      heapEnd := heapEnd + bytes;
    }

    /** Every word of [from, from + bytes) is in a mapped page. */
    ghost predicate Backed(from: int, bytes: int)
      reads vm
    {
      forall a :: from <= a < from + bytes && a % 8 == 0 ==> a in vm.words
    }

    /** After a growth by `bytes` from `from` that was empty or wrapped: the end is not above where
        it was, and the new block is not backed, not even its header unless pages were left mapped
        there. */
    ghost predicate Lost(from: int, bytes: int, stale: bool)
      reads this, vm
    {
      && heapEnd == (from + bytes) % LIMIT && heapEnd <= from
      && forall i {:trigger ShowLost(i)} :: ShowLost(i) ==> !Backed(from, Claimed(bytes)) && (from in vm.words <==> stale)
    }

    lemma NotBacked(from: int, bytes: int)
      requires vm.Valid() && VM.HEAP_BASE <= from <= Mapped() && from % 4096 == 0 && (bytes == 0 || GoodGrowth(bytes)) && !Fits(from, bytes)
      ensures !Backed(from, Claimed(bytes)) && (from in vm.words <==> from < Mapped())
    {
      ClaimedIs(bytes);
      vm.WordsMapped();
      var top := LIMIT - 8;
      VM.BelowTop(|vm.leaves|);
      VM.BelowTop(|vm.leaves| + 1);
      assert VM.HeapPage(|vm.leaves|) <= LIMIT - 4096;
      assert top % 8 == 0 && top !in vm.words;
      WordAligned(from, 0);
    }

    lemma EndOfList()
      requires Listed()
      ensures heapEnd >= VM.HEAP_BASE && heapEnd % 4096 == 0
      ensures heapEnd == VM.HeapPage((heapEnd - VM.HEAP_BASE) / 4096)
      ensures heapLast == if blocks == [] then 0 else blocks[|blocks| - 1].addr
      ensures blocks != [] ==> 0 < heapLast < LIMIT && heapLast + 24 in vm.words
    {
      assert ShowList(0);
      if blocks != [] {
        OkHeader(vm.words, blocks, heapFirst, heapLast, VM.HEAP_BASE, heapEnd, |blocks| - 1);
      }
    }

    /** heap_extend() for any 64-bit size. The block it adds is backed by pages exactly when the
        growth is not empty and does not reach the top of the address space; it then succeeds
        exactly when the heap can grow. */
    method HeapExtend(minSize: int) returns (ret: int, lost: bool)
      requires Listed() && 0 <= minSize < LIMIT
      modifies this, vm
      ensures vm.Valid() && vm.held == old(vm.held) && live == old(live)
      ensures lost <==> !Fits(old(heapEnd), GrowBytes(minSize))
      ensures lost ==> Lost(old(heapEnd), GrowBytes(minSize), old(Stale())) && ret == 0 && State() == old(State()) && blocks == old(blocks)
      ensures ret == 0 ==> (Backed(old(heapEnd), Claimed(GrowBytes(minSize))) <==> Fits(old(heapEnd), GrowBytes(minSize)))
      ensures !lost ==> Listed() && Preserved(old(blocks), old(vm.words), vm.words)
      ensures !lost ==> ret == GrowthCode(old(State()), old(heapEnd), GrowBytes(minSize))
      ensures !lost ==> GrowthDone(old(State()), vm.leaves, |vm.free|, old(heapEnd), GrowBytes(minSize))
      ensures !lost && ret == 0 ==> heapEnd == old(heapEnd) + GrowBytes(minSize) && blocks == Grow(old(blocks), old(heapEnd), GrowBytes(minSize))
      ensures !lost && ret != 0 ==> heapEnd == old(heapEnd) && blocks == old(blocks)
    {
      var bytes := GrowBytes(minSize);
      var block := heapEnd;
      EndOfList();
      GrowthRange(minSize);
      ret, lost := AppendBlock(bytes);
      assert ShowLost(0);
      if ret != 0 || lost {
        return;
      }
      ghost var w, bs := vm.words, blocks;
      MergeBack(block, |old(blocks)|);
      assert Used(old(blocks)) <= Used(bs);
      PreservedTwice(old(blocks), bs, old(vm.words), w, vm.words);
      vm.WordsMapped();
      ClaimedIs(bytes);
    }

    /** The last lines of heap_extend(): the new block joins a free block before it. */
    method MergeBack(block: int, ghost i: nat)
      requires Listed() && i == |blocks| - 1 && block == blocks[i].addr
      modifies this`heapLast, this`blocks, vm`phys, vm`words
      ensures Listed() && Preserved(old(blocks), old(vm.words), vm.words)
      ensures blocks == if i > 0 && old(blocks)[i - 1].free then Merge(old(blocks), i - 1) else old(blocks)
    {
      PreservedRefl(blocks, vm.words);
      OkHeader(vm.words, blocks, heapFirst, heapLast, VM.HEAP_BASE, heapEnd, i);
      var prev := vm.Load(block + 16);
      if prev != 0 {
        OkHeader(vm.words, blocks, heapFirst, heapLast, VM.HEAP_BASE, heapEnd, i - 1);
        var prevFree := vm.Load(prev + 8);
        if prevFree != 0 {
          BlockMergeNext(prev, i - 1);
        }
      }
    }

    /** The heap as callers see it. */
    ghost function Snapshot(): Runs.Heap
      reads this
    {
      Runs.Heap(blocks, heapEnd, live)
    }

    ghost predicate Valid() reads this, vm {
      Listed() && Runs.Inv(Snapshot())
    }

    /** The heap and its mapped pages, as the runs see them. */
    ghost function Whole(): Runs.System
      reads this, vm
    {
      Runs.System(Snapshot(), Mapped())
    }

    /** Find a block for `s` bytes, growing the heap when none fits. */
    method AcquireBlock(s: int) returns (block: int, lost: bool, ghost i: nat, ghost grown: bool)
      requires Listed() && 0 <= s < LIMIT
      modifies this, vm
      ensures vm.Valid() && vm.held == old(vm.held) && live == old(live)
      ensures lost <==> FirstFit(old(blocks), s) == |old(blocks)| && !Fits(old(heapEnd), GrowBytes(s))
      ensures lost ==> Lost(old(heapEnd), GrowBytes(s), old(Stale())) && State() == old(State())
      ensures !lost ==> Listed() && (blocks, heapEnd) == Runs.Searched(old(Snapshot()), s, grown)
      ensures !lost ==> i == FirstFit(blocks, s) && (block == 0 <==> i == |blocks|) && (i < |blocks| ==> block == blocks[i].addr)
      ensures !lost ==> Preserved(old(blocks), old(vm.words), vm.words) && Used(blocks) == Used(old(blocks))
      ensures FirstFit(old(blocks), s) < |old(blocks)| ==> !grown && State() == old(State())
      ensures !lost && FirstFit(old(blocks), s) == |old(blocks)| ==>
        && grown == CanGrow(old(State()), old(heapEnd), GrowBytes(s))
        && GrowthDone(old(State()), vm.leaves, |vm.free|, old(heapEnd), GrowBytes(s))
    {
      PreservedRefl(blocks, vm.words);
      EndOfList();
      block, i := FindFreeBlock(s);
      grown, lost := false, false;
      if block == 0 {
        block, lost, i, grown := GrowAndFind(s);
      }
      Runs.SearchedIs(old(Snapshot()), s, grown);
    }

    /** Grow the heap for `s` bytes and search it again. */
    method GrowAndFind(s: int) returns (block: int, lost: bool, ghost i: nat, ghost grown: bool)
      requires Listed() && 0 <= s < LIMIT && FirstFit(blocks, s) == |blocks|
      modifies this, vm
      ensures vm.Valid() && vm.held == old(vm.held) && live == old(live)
      ensures lost <==> !Fits(old(heapEnd), GrowBytes(s))
      ensures lost ==> Lost(old(heapEnd), GrowBytes(s), old(Stale())) && State() == old(State())
      ensures !lost ==> Listed() && i == FirstFit(blocks, s)
      ensures !lost ==> (block == 0 <==> i == |blocks|) && (i < |blocks| ==> block == blocks[i].addr)
      ensures !lost ==> Preserved(old(blocks), old(vm.words), vm.words) && Used(blocks) == Used(old(blocks))
      ensures !lost ==> grown == CanGrow(old(State()), old(heapEnd), GrowBytes(s))
      ensures !lost ==> GrowthDone(old(State()), vm.leaves, |vm.free|, old(heapEnd), GrowBytes(s))
      ensures !lost ==> heapEnd == old(heapEnd) + if grown then GrowBytes(s) else 0
      ensures !lost ==> blocks == if grown then Grow(old(blocks), old(heapEnd), GrowBytes(s)) else old(blocks)
    {
      var ret;
      block, i := 0, |blocks|;
      ret, lost := HeapExtend(s);
      grown := ret == 0 && !lost;
      if ret == 0 && !lost {
        GrowUses(old(blocks), old(heapEnd), GrowBytes(s));
        block, i := FindFreeBlock(s);
      }
    }

    /** The first block that fits s bytes, or NULL. */
    ghost predicate Served(block: int, i: nat, s: int)
      reads this
    {
      && GoodSize(s) && i == FirstFit(blocks, s)
      && (block == 0 <==> i == |blocks|) && (i < |blocks| ==> block == blocks[i].addr)
    }

    /** kmalloc() of a size that does not round to 0. A request that needs a growth which is empty or
        reaches the top of the address space is lost. Any other does the run step, with as many
        bytes mapped as the free pages allow, and is refused exactly when nothing fits and the heap
        cannot grow, or the size is above 2^64 - 32. */
    method Kmalloc(size: int) returns (ptr: int, lost: bool, ghost got: int)
      requires Valid() && 0 <= size <= LIMIT - 16
      modifies this, vm
      ensures vm.Valid() && vm.held == old(vm.held)
      ensures lost <==> !Runs.Roomy(old(Snapshot()), size)
      ensures lost ==> Lost(old(heapEnd), GrowBytes(RoundUp(size, ALIGNMENT)), old(Stale())) && State() == old(State())
      ensures !lost ==> Valid() && Runs.Possible(old(Whole()), Runs.Alloc(size, got)) && Whole() == Runs.Next(old(Whole()), Runs.Alloc(size, got))
      ensures !lost ==> (ptr == 0 <==> size == 0 || (Unfit(old(blocks), size) && (size > LIMIT - 32 || !CanGrow(old(State()), old(heapEnd), GrowBytes(RoundUp(size, ALIGNMENT))))))
      ensures !lost && ptr != 0 ==> ptr !in old(live) && live == old(live)[ptr := size]
      ensures !lost ==> Preserved(old(blocks), old(vm.words), vm.words)
      ensures !lost && old(Stale()) ==> Stale() && heapEnd == old(heapEnd) && vm.leaves == old(vm.leaves)
    {
      PreservedRefl(blocks, vm.words);
      ptr, lost, got := 0, false, 0;
      if size == 0 {
        return;
      }
      var s := RoundUp(size, ALIGNMENT);
      RequestRounds(size);
      ghost var bs, i, grown;
      ptr, lost, bs, i, grown := Allocate(size, s);
      if !lost {
        got := Mapped() - old(Mapped());
        RequestOutcome(old(Snapshot()), old(State()), vm.leaves, |vm.free|, size, grown, bs, heapEnd, i);
      }
    }

    /** kmalloc() of `size` bytes rounded to s. */
    method Allocate(size: int, s: int) returns (ptr: int, lost: bool, ghost bs: seq<Block>, ghost i: nat, ghost grown: bool)
      requires Listed() && GoodSize(s) && s < LIMIT
      modifies this, vm
      ensures vm.Valid() && vm.held == old(vm.held)
      ensures lost <==> FirstFit(old(blocks), s) == |old(blocks)| && !Fits(old(heapEnd), GrowBytes(s))
      ensures lost ==> Lost(old(heapEnd), GrowBytes(s), old(Stale())) && State() == old(State())
      ensures !lost ==> Listed() && Preserved(old(blocks), old(vm.words), vm.words)
      ensures !lost ==> (bs, heapEnd) == Runs.Searched(old(Snapshot()), s, grown) && i == FirstFit(bs, s) && (ptr == 0 <==> i == |bs|)
      ensures !lost && i == |bs| ==> blocks == bs && live == old(live)
      ensures !lost && i < |bs| ==> ptr == bs[i].Payload() && blocks == Take(bs, i, s) && live == old(live)[ptr := size]
      ensures FirstFit(old(blocks), s) < |old(blocks)| ==> !grown && vm.leaves == old(vm.leaves)
      ensures !lost && FirstFit(old(blocks), s) == |old(blocks)| ==>
        && grown == CanGrow(old(State()), old(heapEnd), GrowBytes(s))
        && GrowthDone(old(State()), vm.leaves, |vm.free|, old(heapEnd), GrowBytes(s))
    {
      var block;
      ptr := 0;
      block, lost, i, grown := AcquireBlock(s);
      bs := blocks;
      if !lost {
        ghost var w := vm.words;
        ptr := HandOut(block, size, s, i);
        PreservedTwice(old(blocks), bs, old(vm.words), w, vm.words);
      }
    }

    /** Take the block, if there is one, and record the pointer as live. */
    method HandOut(block: int, size: int, s: int, ghost i: nat) returns (ptr: int)
      requires Listed() && Served(block, i, s)
      modifies this`heapLast, this`blocks, this`live, vm`phys, vm`words
      ensures Listed() && Preserved(old(blocks), old(vm.words), vm.words) && (ptr == 0 <==> i == |old(blocks)|)
      ensures ptr == 0 ==> blocks == old(blocks) && live == old(live)
      ensures ptr != 0 ==> ptr == old(blocks)[i].Payload() && blocks == Take(old(blocks), i, s) && live == old(live)[ptr := size]
    {
      PreservedRefl(blocks, vm.words);
      if block == 0 {
        return 0;
      }
      BlockPositive(i);
      TakeBlock(block, s, i);
      live := live[block + HEADER := size];
      return block + HEADER;
    }

    lemma BlockPositive(i: nat)
      requires Listed() && i < |blocks|
      ensures blocks[i].addr > 0
    {
      assert ShowList(0);
      AddressPositive(blocks, VM.HEAP_BASE, heapEnd, i);
    }

    /** Split the found block and mark it used. */
    method TakeBlock(block: int, size: int, ghost i: nat)
      requires Listed() && i < |blocks| && block == blocks[i].addr && blocks[i].free && GoodSize(size) && blocks[i].size >= size
      modifies this`heapLast, this`blocks, vm`phys, vm`words
      ensures Listed()
      ensures blocks == Take(old(blocks), i, size)
      ensures Preserved(old(blocks), old(vm.words), vm.words)
    {
      BlockSplit(block, size, i);
      ghost var w, bs := vm.words, blocks;
      SplitUses(old(blocks), i, size);
      OkHeader(w, bs, heapFirst, heapLast, VM.HEAP_BASE, heapEnd, i);
      OkSetFree(w, bs, heapFirst, heapLast, VM.HEAP_BASE, heapEnd, i, false);
      vm.Store(block + 8, 0);
      blocks := SetFree(blocks, i, false);
      PreservedTwice(old(blocks), bs, old(vm.words), w, vm.words);
    }

    method Kfree(ptr: int)
      requires Valid() && Runs.Legal(Snapshot(), Runs.Free(ptr))
      modifies this, vm
      ensures Valid() && vm.held == old(vm.held)
      ensures Snapshot() == Runs.FreeStep(old(Snapshot()), ptr)
      ensures live == old(live) - {ptr} && heapEnd == old(heapEnd)
      ensures Used(blocks) == if ptr == 0 then Used(old(blocks)) else Used(old(blocks)) - {old(blocks)[Runs.BlockOf(old(blocks), ptr)]}
      ensures Preserved(blocks, old(vm.words), vm.words)
    {
      Runs.FreeKeeps(Snapshot(), ptr);
      Runs.StepNotes(Snapshot(), Runs.Free(ptr));
      if ptr != 0 {
        Runs.FreeTakesOne(Snapshot(), ptr);
      }
      PreservedRefl(blocks, vm.words);
      if ptr == 0 {
        return;
      }
      Runs.LiveBlock(Snapshot(), ptr);
      ghost var i := Runs.BlockOf(blocks, ptr);
      ReleaseBlock(ptr - HEADER, i);
      live := live - {ptr};
    }

    /** Mark the block free and coalesce it with its neighbours. */
    method ReleaseBlock(block: int, ghost i: nat)
      requires Listed() && i < |blocks| && block == blocks[i].addr
      modifies this`heapLast, this`blocks, vm`phys, vm`words
      ensures Listed()
      ensures blocks == Release(old(blocks), i)
      ensures Preserved(blocks, old(vm.words), vm.words)
    {
      MarkFree(block, i);
      ghost var w1, b1 := vm.words, blocks;
      BlockMergeNext(block, i);
      MergeUses(b1, i);
      ghost var w2, b2 := vm.words, blocks;
      PreservedTwice(b2, b1, old(vm.words), w1, w2);
      OkHeader(vm.words, blocks, heapFirst, heapLast, VM.HEAP_BASE, heapEnd, i);
      var prev := vm.Load(block + 16);
      if prev != 0 {
        OkHeader(vm.words, blocks, heapFirst, heapLast, VM.HEAP_BASE, heapEnd, i - 1);
        var prevFree := vm.Load(prev + 8);
        if prevFree != 0 {
          BlockMergeNext(prev, i - 1);
          MergeUses(b2, i - 1);
          PreservedTwice(b2, b2, old(vm.words), w2, vm.words);
          PreservedFewer(blocks, b2, old(vm.words), vm.words);
        }
      }
    }

    method MarkFree(block: int, ghost i: nat)
      requires Listed() && i < |blocks| && block == blocks[i].addr
      modifies this`blocks, vm`phys, vm`words
      ensures Listed() && blocks == SetFree(old(blocks), i, true)
      ensures Preserved(blocks, old(vm.words), vm.words)
    {
      OkHeader(vm.words, blocks, heapFirst, heapLast, VM.HEAP_BASE, heapEnd, i);
      OkSetFree(vm.words, blocks, heapFirst, heapLast, VM.HEAP_BASE, heapEnd, i, true);
      vm.Store(block + 8, 1);
      blocks := SetFree(blocks, i, true);
      assert Used(blocks) <= Used(old(blocks));
      PreservedFewer(blocks, old(blocks), old(vm.words), vm.words);
    }
  }
}
