/** The kernel heap of mm/heap.c as a list of blocks: what splitting, coalescing, growing,
    kmalloc() and kfree() do to the list, and what every run of them keeps. */
module HeapBlocks {
  import opened Division

  /** sizeof(struct heap_block), HEAP_ALIGNMENT and PAGE_SIZE. */
  const HEADER := 32
  const ALIGNMENT := 16
  const PAGE := 4096
  const LIMIT := 0x1_0000_0000_0000_0000

  /** A block: its header address, payload size and free flag. */
  datatype Block = Block(addr: int, size: int, free: bool) {
    function Payload(): int { addr + HEADER }
    function End(): int { addr + HEADER + size }
  }

  /** Block i ends where block i + 1 begins. */
  predicate Abuts(bs: seq<Block>, i: int)
    requires 0 <= i < |bs| - 1
  {
    bs[i].End() == bs[i + 1].addr
  }

  predicate NotBothFree(bs: seq<Block>, i: int)
    requires 0 <= i < |bs| - 1
  {
    !(bs[i].free && bs[i + 1].free)
  }

  /** The blocks lie end to end from `base` to `end`, with aligned non-trivial payloads. */
  ghost predicate Tiles(bs: seq<Block>, base: int, end: int) {
    && (bs == [] ==> end == base)
    && (bs != [] ==> bs[0].addr == base && bs[|bs| - 1].End() == end)
    && (forall i :: 0 <= i < |bs| ==> GoodSize(bs[i].size))
    && (forall i :: 0 <= i < |bs| - 1 ==> Abuts(bs, i))
  }

  /** No two neighbouring blocks are both free. */
  ghost predicate Coalesced(bs: seq<Block>) {
    forall i :: 0 <= i < |bs| - 1 ==> NotBothFree(bs, i)
  }

  lemma {:induction false} Ordered(bs: seq<Block>, base: int, end: int, i: int, j: int)
    requires Tiles(bs, base, end) && 0 <= i < j < |bs|
    ensures bs[i].End() <= bs[j].addr
    decreases j
  {
    assert Abuts(bs, j - 1);
    if i < j - 1 {
      Ordered(bs, base, end, i, j - 1);
    }
  }

  /** All pairs at once, with the bounds of the tiled range. */
  lemma AllOrdered(bs: seq<Block>, base: int, end: int)
    requires Tiles(bs, base, end)
    ensures forall i, j :: 0 <= i < j < |bs| ==> bs[i].End() <= bs[j].addr
    ensures forall i :: 0 <= i < |bs| ==> base <= bs[i].addr && bs[i].End() <= end
  {
    forall i, j | 0 <= i < j < |bs|
      ensures bs[i].End() <= bs[j].addr
    {
      Ordered(bs, base, end, i, j);
    }
  }

  lemma {:induction false} Aligned(bs: seq<Block>, base: int, end: int, i: int)
    requires Tiles(bs, base, end) && base % ALIGNMENT == 0 && 0 <= i < |bs|
    ensures bs[i].addr % ALIGNMENT == 0 && bs[i].Payload() % ALIGNMENT == 0
    decreases i
  {
    if i > 0 {
      Aligned(bs, base, end, i - 1);
      assert Abuts(bs, i - 1);
    }
  }

  // ----- list operations -----

  function SetFree(bs: seq<Block>, i: nat, free: bool): seq<Block>
    requires i < |bs|
  {
    bs[i := bs[i].(free := free)]
  }

  /** block_merge_next(): absorb the next block when it is free. */
  function Merge(bs: seq<Block>, i: nat): seq<Block>
    requires i < |bs|
  {
    if i + 1 < |bs| && bs[i + 1].free then
      bs[..i] + [bs[i].(size := bs[i].size + HEADER + bs[i + 1].size)] + bs[i + 2..]
    else bs
  }

  /** block_split(): cut a free tail off a block that is large enough. */
  function Split(bs: seq<Block>, i: nat, size: int): seq<Block>
    requires i < |bs|
  {
    if bs[i].size < size + HEADER + ALIGNMENT then bs
    else
      var b := bs[i];
      bs[..i] + [b.(size := size), Block(b.addr + HEADER + size, b.size - size - HEADER, true)] + bs[i + 1..]
  }

  /** find_free_block(): the first free block that is large enough, or the list length. */
  function FirstFit(bs: seq<Block>, size: int): (i: nat)
    ensures i <= |bs|
    ensures i < |bs| ==> bs[i].free && bs[i].size >= size
    ensures forall k :: 0 <= k < i ==> !(bs[k].free && bs[k].size >= size)
  {
    if bs == [] then 0
    else if bs[0].free && bs[0].size >= size then 0
    else
      var r := FirstFit(bs[1..], size);
      assert forall k :: 0 < k < r + 1 ==> bs[k] == bs[1..][k - 1];
      r + 1
  }

  /** heap_extend() after the pages are mapped: a new free block at the end, merged back. */
  function Grow(bs: seq<Block>, end: int, bytes: int): seq<Block> {
    var bs' := bs + [Block(end, bytes - HEADER, true)];
    if bs != [] && bs[|bs| - 1].free then Merge(bs', |bs| - 1) else bs'
  }

  /** kmalloc() once a block was found. */
  function Take(bs: seq<Block>, i: nat, size: int): seq<Block>
    requires i < |bs|
  {
    SetFree(Split(bs, i, size), i, false)
  }

  /** kfree() of block i. */
  function Release(bs: seq<Block>, i: nat): seq<Block>
    requires i < |bs|
  {
    var bs' := Merge(SetFree(bs, i, true), i);
    if i > 0 && bs'[i - 1].free then Merge(bs', i - 1) else bs'
  }

  predicate GoodSize(n: int) { n >= ALIGNMENT && n % ALIGNMENT == 0 }

  lemma GoodSizes(x: int, y: int)
    requires GoodSize(x) && GoodSize(y)
    ensures GoodSize(x + HEADER + y)
    ensures x >= y + HEADER + ALIGNMENT ==> GoodSize(x - y - HEADER)
    ensures x >= HEADER + ALIGNMENT ==> GoodSize(x - HEADER)
  {
  }

  /** A merge that happens: the blocks before and after are as they were. */
  lemma MergedAt(bs: seq<Block>, i: nat, k: nat)
    requires i + 1 < |bs| && bs[i + 1].free && k < |bs| - 1
    ensures |Merge(bs, i)| == |bs| - 1
    ensures k < i ==> Merge(bs, i)[k] == bs[k]
    ensures k == i ==> Merge(bs, i)[k] == bs[i].(size := bs[i].size + HEADER + bs[i + 1].size)
    ensures k > i ==> Merge(bs, i)[k] == bs[k + 1]
  {
  }

  lemma MergedSize(bs: seq<Block>, i: nat, k: nat)
    requires i + 1 < |bs| && bs[i + 1].free && k < |bs| - 1 && forall j :: 0 <= j < |bs| ==> GoodSize(bs[j].size)
    ensures |Merge(bs, i)| == |bs| - 1 && GoodSize(Merge(bs, i)[k].size)
  {
  }

  lemma MergeTiles(bs: seq<Block>, i: nat, base: int, end: int)
    requires Tiles(bs, base, end) && i < |bs|
    ensures Tiles(Merge(bs, i), base, end)
  {
    if i + 1 < |bs| && bs[i + 1].free {
      var bs' := Merge(bs, i);
      MergedAt(bs, i, 0);
      MergedAt(bs, i, |bs| - 2);
      assert Abuts(bs, i);
      forall k | 0 <= k < |bs'|
        ensures GoodSize(bs'[k].size)
      {
        MergedSize(bs, i, k);
      }
      forall k | 0 <= k < |bs'| - 1
        ensures Abuts(bs', k)
      {
        MergedAbuts(bs, i, base, end, k);
      }
    }
  }

  lemma MergedAbuts(bs: seq<Block>, i: nat, base: int, end: int, k: nat)
    requires Tiles(bs, base, end) && i + 1 < |bs| && bs[i + 1].free && k < |bs| - 2
    ensures Abuts(Merge(bs, i), k)
  {
    MergedAt(bs, i, k);
    MergedAt(bs, i, k + 1);
    assert Abuts(bs, i) && Abuts(bs, if k < i then k else k + 1);
  }

  lemma SplitTiles(bs: seq<Block>, i: nat, size: int, base: int, end: int)
    requires Tiles(bs, base, end) && i < |bs| && GoodSize(size)
    ensures Tiles(Split(bs, i, size), base, end)
  {
    var bs' := Split(bs, i, size);
    if bs' != bs {
      GoodSizes(bs[i].size, size);
      assert forall k :: i + 1 < k < |bs'| ==> bs'[k] == bs[k - 1];
      forall k | 0 <= k < |bs'| - 1
        ensures Abuts(bs', k)
      {
        if k < i {
          assert Abuts(bs, k);
        } else if k > i {
          assert Abuts(bs, k - 1);
        }
      }
    }
  }

  lemma SetFreeTiles(bs: seq<Block>, i: nat, free: bool, base: int, end: int)
    requires Tiles(bs, base, end) && i < |bs|
    ensures Tiles(SetFree(bs, i, free), base, end)
  {
    var bs' := SetFree(bs, i, free);
    forall k | 0 <= k < |bs'| - 1
      ensures Abuts(bs', k)
    {
      assert Abuts(bs, k);
    }
  }

  lemma GrowTiles(bs: seq<Block>, base: int, end: int, bytes: int)
    requires Tiles(bs, base, end) && bytes >= HEADER + ALIGNMENT && GoodSize(bytes)
    ensures Tiles(Grow(bs, end, bytes), base, end + bytes)
  {
    var bs' := bs + [Block(end, bytes - HEADER, true)];
    GoodSizes(bytes, bytes);
    forall k | 0 <= k < |bs'| - 1
      ensures Abuts(bs', k)
    {
      if k < |bs| - 1 {
        assert Abuts(bs, k);
      }
    }
    if bs != [] {
      MergeTiles(bs', |bs| - 1, base, end + bytes);
    }
  }

  // ----- the heap invariant -----

  ghost predicate HeapInv(bs: seq<Block>, base: int, end: int) {
    Tiles(bs, base, end) && Coalesced(bs)
  }

  lemma TakeKeeps(bs: seq<Block>, i: nat, size: int, base: int, end: int)
    requires HeapInv(bs, base, end) && i < |bs| && bs[i].free && bs[i].size >= size
    requires GoodSize(size)
    ensures HeapInv(Take(bs, i, size), base, end)
  {
    SplitTiles(bs, i, size, base, end);
    SetFreeTiles(Split(bs, i, size), i, false, base, end);
    var bs' := Take(bs, i, size);
    forall k | 0 <= k < |bs'| - 1
      ensures NotBothFree(bs', k)
    {
      if k + 1 < i {
        assert NotBothFree(bs, k);
      } else if k > i {
        if |bs'| == |bs| {
          assert NotBothFree(bs, k);
        } else if k > i + 1 {
          assert bs'[k] == bs[k - 1] && bs'[k + 1] == bs[k];
          assert NotBothFree(bs, k - 1);
        } else {
          assert bs'[k + 1] == bs[k];
          assert NotBothFree(bs, i);
        }
      }
    }
  }

  lemma GrowKeeps(bs: seq<Block>, base: int, end: int, bytes: int)
    requires HeapInv(bs, base, end) && bytes >= HEADER + ALIGNMENT && GoodSize(bytes)
    ensures HeapInv(Grow(bs, end, bytes), base, end + bytes)
  {
    GrowTiles(bs, base, end, bytes);
    var bs' := Grow(bs, end, bytes);
    forall k | 0 <= k < |bs'| - 1
      ensures NotBothFree(bs', k)
    {
      if k + 1 < |bs| {
        assert NotBothFree(bs, k);
      }
    }
  }

  lemma ReleaseKeeps(bs: seq<Block>, i: nat, base: int, end: int)
    requires HeapInv(bs, base, end) && i < |bs|
    ensures HeapInv(Release(bs, i), base, end)
  {
    SetFreeTiles(bs, i, true, base, end);
    var b1 := SetFree(bs, i, true);
    MergeTiles(b1, i, base, end);
    var b2 := Merge(b1, i);
    if i > 0 {
      MergeTiles(b2, i - 1, base, end);
    }
    ReleaseCoalesces(bs, i);
  }

  lemma ReleaseCoalesces(bs: seq<Block>, i: nat)
    requires Coalesced(bs) && i < |bs|
    ensures Coalesced(Release(bs, i))
  {
    var b2 := Merge(SetFree(bs, i, true), i);
    var d := |bs| - |b2|;
    assert forall k :: i < k < |b2| ==> b2[k] == bs[k + d];
    assert forall k :: 0 <= k < |b2| - 1 && k != i - 1 ==> NotBothFree(b2, k) by {
      forall k | 0 <= k < |b2| - 1 && k != i - 1
        ensures NotBothFree(b2, k)
      {
        if k < i {
          assert NotBothFree(bs, k);
        } else {
          assert NotBothFree(bs, k + d);
        }
      }
    }
    if i > 0 && b2[i - 1].free {
      var b3 := Merge(b2, i - 1);
      assert forall k :: i - 1 < k < |b3| ==> b3[k] == b2[k + 1];
      forall k | 0 <= k < |b3| - 1
        ensures NotBothFree(b3, k)
      {
        if k < i - 1 {
          assert NotBothFree(b2, k);
        } else {
          assert NotBothFree(b2, k + 1);
        }
      }
    }
  }

  // ----- allocated blocks -----

  /** The blocks in use. */
  ghost function Used(bs: seq<Block>): set<Block> {
    set b | b in bs && !b.free
  }

  lemma TakeUses(bs: seq<Block>, i: nat, size: int)
    requires i < |bs| && bs[i].free && bs[i].size >= size
    ensures i < |Take(bs, i, size)| && Take(bs, i, size)[i].addr == bs[i].addr && Take(bs, i, size)[i].size >= size
    ensures Used(Take(bs, i, size)) == Used(bs) + {Take(bs, i, size)[i]}
  {
    var bs' := Take(bs, i, size);
    assert forall b :: b in bs && b != bs[i] ==> b in bs' by {
      forall b | b in bs && b != bs[i]
        ensures b in bs'
      {
        var k :| 0 <= k < |bs| && bs[k] == b;
        assert k < i ==> bs'[k] == b;
        assert k > i ==> bs'[k + |bs'| - |bs|] == b;
      }
    }
    assert bs'[i] in bs';
    forall b | b in bs' && !b.free
      ensures b in bs || b == bs'[i]
    {
      var k :| 0 <= k < |bs'| && bs'[k] == b;
      if |bs'| > |bs| && k > i + 1 {
        assert bs'[k] == bs[k - 1];
      }
    }
  }

  lemma SplitUses(bs: seq<Block>, i: nat, size: int)
    requires i < |bs| && bs[i].free
    ensures Used(Split(bs, i, size)) == Used(bs)
  {
  }

  lemma MergeUses(bs: seq<Block>, i: nat)
    requires i < |bs| && bs[i].free
    ensures Used(Merge(bs, i)) == Used(bs)
  {
  }

  lemma GrowUses(bs: seq<Block>, end: int, bytes: int)
    ensures Used(Grow(bs, end, bytes)) == Used(bs)
  {
  }

  lemma ReleaseUses(bs: seq<Block>, i: nat, base: int, end: int)
    requires Tiles(bs, base, end) && i < |bs| && !bs[i].free
    ensures Used(Release(bs, i)) == Used(bs) - {bs[i]}
  {
    var b1 := SetFree(bs, i, true);
    AllOrdered(bs, base, end);
    forall b | b in bs && b != bs[i]
      ensures b in b1
    {
      var k :| 0 <= k < |bs| && bs[k] == b;
      assert b1[k] == b;
    }
    assert bs[i] !in b1;
    assert Used(b1) == Used(bs) - {bs[i]};
    MergeUses(b1, i);
    var b2 := Merge(b1, i);
    if i > 0 && b2[i - 1].free {
      MergeUses(b2, i - 1);
    }
  }

  // ----- rounding -----

  /** align_up_size(), in 64-bit arithmetic. */
  function RoundUp(value: int, alignment: int): int
    requires alignment > 0
  {
    (value + alignment - 1) % LIMIT / alignment * alignment
  }

  /** Bytes heap_extend() asks for, in 64-bit arithmetic. */
  function GrowBytes(size: int): int {
    RoundUp((size + HEADER) % LIMIT, PAGE)
  }

  lemma DownMultiple(x: int, alignment: int)
    requires alignment > 0
    ensures x - alignment < x / alignment * alignment <= x && (x / alignment * alignment) % alignment == 0
  {
  }

  /** align_up_size() without wrap-around, and with it. */
  lemma RoundUpIs(value: int, alignment: int)
    requires alignment > 0 && 0 <= value && value + alignment - 1 < 2 * LIMIT
    ensures RoundUp(value, alignment) % alignment == 0
    ensures value + alignment - 1 < LIMIT ==> value <= RoundUp(value, alignment) < value + alignment
    ensures value + alignment - 1 >= LIMIT ==> RoundUp(value, alignment) <= value + alignment - 1 - LIMIT
  {
    var v := value + alignment - 1;
    DownMultiple(v % LIMIT, alignment);
    assert v % LIMIT == if v < LIMIT then v else v - LIMIT;
  }

  lemma GrowBytesIs(s: int)
    requires 0 <= s < LIMIT
    ensures GrowBytes(s) % PAGE == 0
    ensures s + HEADER + PAGE - 1 < LIMIT ==> s + HEADER <= GrowBytes(s) < s + HEADER + PAGE
    ensures s + HEADER + PAGE - 1 >= LIMIT ==> GrowBytes(s) < s
  {
  }

  /** Rounding works exactly for requests up to 2^64 - 4128. */
  lemma RoundingExact(size: int)
    requires 0 < size < LIMIT
    ensures size <= LIMIT - 4128 <==> (RoundUp(size, ALIGNMENT) >= size && GrowBytes(RoundUp(size, ALIGNMENT)) >= RoundUp(size, ALIGNMENT) + HEADER)
    ensures size <= LIMIT - 4128 ==>
              && GoodSize(RoundUp(size, ALIGNMENT)) && GoodSize(GrowBytes(RoundUp(size, ALIGNMENT)))
              && GrowBytes(RoundUp(size, ALIGNMENT)) % PAGE == 0
  {
    var s := RoundUp(size, ALIGNMENT);
    RoundUpIs(size, ALIGNMENT);
    if size + ALIGNMENT - 1 < LIMIT {
      RoundsWithin(s, size);
      GrowBytesIs(s);
      if size <= LIMIT - 4128 {
        PageIsAligned(GrowBytes(s));
      }
    }
  }

  /** The limit is a multiple of the alignment, so rounding up does not cross it. */
  lemma RoundsWithin(s: int, size: int)
    requires s % ALIGNMENT == 0 && size <= s < size + ALIGNMENT
    ensures size <= LIMIT - 4128 <==> s <= LIMIT - 4128
    ensures size <= LIMIT - ALIGNMENT ==> s < LIMIT
  {
  }

  lemma PageIsAligned(n: int)
    requires n % PAGE == 0
    ensures n % ALIGNMENT == 0
  {
    var q := n / PAGE;
    assert n == PAGE * q;
    Unique(n, ALIGNMENT, 256 * q, 0);
  }

  /** A growth by whole pages, at least one. */
  predicate GoodGrowth(bytes: int) { PAGE <= bytes < LIMIT && bytes % PAGE == 0 }

  /** A growth that is not empty and stays below the top of the address space. */
  predicate Fits(end: int, bytes: int) { 0 < bytes < LIMIT - end }

  lemma GrowthSize(bytes: int)
    requires GoodGrowth(bytes)
    ensures GoodSize(bytes) && bytes >= HEADER + ALIGNMENT
  {
    PageIsAligned(bytes);
  }

  /** Every growth is by whole pages or, when its size wraps, by nothing. */
  lemma GrowthRange(s: int)
    requires 0 <= s < LIMIT
    ensures GrowBytes(s) == 0 || GoodGrowth(GrowBytes(s))
  {
    GrowBytesIs(s);
  }

  /** Up to 2^64 - 16 a request rounds to a size that holds it; the growth is then empty exactly
      above 2^64 - 4128 and up to 2^64 - 32. */
  lemma RequestRounds(size: int)
    requires 0 < size <= LIMIT - 16
    ensures GoodSize(RoundUp(size, ALIGNMENT)) && size <= RoundUp(size, ALIGNMENT) < LIMIT
    ensures GrowBytes(RoundUp(size, ALIGNMENT)) == 0 <==> LIMIT - 4128 < size <= LIMIT - 32
  {
    var s := RoundUp(size, ALIGNMENT);
    RoundUpIs(size, ALIGNMENT);
    RoundsWithin(s, size);
    if size <= LIMIT - 4128 {
      GrowBytesIs(s);
    } else {
      OversizeRounds(size);
    }
  }

  /** Above 2^64 - 4128 the growth is empty, or one page too small, or the request itself is 0. */
  lemma OversizeRounds(size: int)
    requires LIMIT - 4128 < size < LIMIT
    ensures size > LIMIT - 16 ==> RoundUp(size, ALIGNMENT) == 0
    ensures size <= LIMIT - 16 ==> GrowBytes(RoundUp(size, ALIGNMENT)) == if size > LIMIT - 32 then PAGE else 0
  {
    RoundUpIs(size, ALIGNMENT);
    if size <= LIMIT - 16 {
      var s := RoundUp(size, ALIGNMENT);
      RoundsWithin(s, size);
      var v := (s + HEADER) % LIMIT;
      assert v == if s + HEADER < LIMIT then s + HEADER else s + HEADER - LIMIT;
      assert (v + PAGE - 1) % LIMIT == if v + PAGE - 1 < LIMIT then v + PAGE - 1 else v + PAGE - 1 - LIMIT;
    }
  }
}
