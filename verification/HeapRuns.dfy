/** Every run of kmalloc() and kfree() on live pointers (mm/heap.c). */
module HeapRuns {
  import opened HeapBlocks

  /** The heap seen from outside: its blocks, its end, and the live pointers with the sizes
      that were asked for. */
  datatype Heap = Heap(bs: seq<Block>, end: int, live: map<int, int>)

  /** `grows` is what the pages decide: whether mapping the new range succeeds. */
  datatype Op = Malloc(size: int, grows: bool) | Free(ptr: int)

  const BASE := 0xffff_ff20_0000_0000

  /** heap_extend() by no bytes at all: the size of the new block wraps to 2^64 - 32, and merging it
      into a free block before it leaves that block as it was. */
  function GrowNothing(bs: seq<Block>, end: int): seq<Block> {
    if bs != [] && bs[|bs| - 1].free then bs else bs + [Block(end, LIMIT - HEADER, true)]
  }

  /** The blocks kmalloc() searches last: those it has, or those after growing. The end of the
      heap is a 64-bit number. */
  function Searched(h: Heap, s: int, grows: bool): (seq<Block>, int) {
    if FirstFit(h.bs, s) < |h.bs| || !grows then (h.bs, h.end)
    else if GrowBytes(s) == 0 then (GrowNothing(h.bs, h.end), h.end)
    else (Grow(h.bs, h.end, GrowBytes(s)), (h.end + GrowBytes(s)) % LIMIT)
  }

  lemma SearchedIs(h: Heap, s: int, grows: bool)
    requires 0 <= h.end && 0 <= GrowBytes(s)
    ensures FirstFit(h.bs, s) < |h.bs| || !grows ==> Searched(h, s, grows) == (h.bs, h.end)
    ensures FirstFit(h.bs, s) == |h.bs| && grows && Fits(h.end, GrowBytes(s)) ==>
      Searched(h, s, grows) == (Grow(h.bs, h.end, GrowBytes(s)), h.end + GrowBytes(s))
  {
  }

  /** The pointer kmalloc() returns. */
  function MallocResult(h: Heap, size: int, grows: bool): int {
    var s := RoundUp(size, ALIGNMENT);
    var (bs, _) := Searched(h, s, grows);
    var i := FirstFit(bs, s);
    if size == 0 || i == |bs| then 0 else bs[i].Payload()
  }

  function MallocStep(h: Heap, size: int, grows: bool): Heap {
    var s := RoundUp(size, ALIGNMENT);
    var (bs, end) := Searched(h, s, grows);
    var i := FirstFit(bs, s);
    if size == 0 then h
    else if i == |bs| then Heap(bs, end, h.live)
    else Heap(Take(bs, i, s), end, h.live[bs[i].Payload() := size])
  }

  /** kmalloc() of a non-zero size, once the searched blocks and the first fit are known. */
  lemma MallocIs(h: Heap, size: int, grows: bool, bs: seq<Block>, end: int, i: nat)
    requires size != 0 && (bs, end) == Searched(h, RoundUp(size, ALIGNMENT), grows) && i == FirstFit(bs, RoundUp(size, ALIGNMENT))
    ensures i == |bs| ==> MallocStep(h, size, grows) == Heap(bs, end, h.live) && MallocResult(h, size, grows) == 0
    ensures i < |bs| ==>
      && MallocStep(h, size, grows) == Heap(Take(bs, i, RoundUp(size, ALIGNMENT)), end, h.live[bs[i].Payload() := size])
      && MallocResult(h, size, grows) == bs[i].Payload()
  {
  }

  /** The block behind a pointer, or the list length. */
  function BlockOf(bs: seq<Block>, ptr: int): (i: nat)
    ensures i <= |bs|
    ensures i < |bs| ==> bs[i].Payload() == ptr
    ensures i == |bs| ==> forall k :: 0 <= k < |bs| ==> bs[k].Payload() != ptr
  {
    if bs == [] then 0
    else if bs[0].Payload() == ptr then 0
    else
      var r := BlockOf(bs[1..], ptr);
      assert forall k :: 0 < k < |bs| ==> bs[k] == bs[1..][k - 1];
      r + 1
  }

  function FreeStep(h: Heap, ptr: int): Heap {
    var i := BlockOf(h.bs, ptr);
    if ptr == 0 || i == |h.bs| then h else Heap(Release(h.bs, i), h.end, h.live - {ptr})
  }

  function Step(h: Heap, op: Op): Heap {
    match op
    case Malloc(size, grows) => MallocStep(h, size, grows)
    case Free(ptr) => FreeStep(h, ptr)
  }

  /** A request that needs no growth, or one whose growth adds something and stays below the top of
      the address space. */
  predicate Roomy(h: Heap, size: int) {
    || size == 0
    || FirstFit(h.bs, RoundUp(size, ALIGNMENT)) < |h.bs|
    || Fits(h.end, GrowBytes(RoundUp(size, ALIGNMENT)))
  }

  /** Sizes that do not round to 0, growth inside the address space, and live pointers. */
  predicate Legal(h: Heap, op: Op) {
    match op
    case Malloc(size, _) => 0 <= size <= LIMIT - 16 && Roomy(h, size)
    case Free(ptr) => ptr == 0 || ptr in h.live
  }

  function Run(h: Heap, ops: seq<Op>): Heap
    decreases |ops|
  {
    if ops == [] then h else Run(Step(h, ops[0]), ops[1..])
  }

  predicate LegalRun(h: Heap, ops: seq<Op>)
    decreases |ops|
  {
    ops == [] || (Legal(h, ops[0]) && LegalRun(Step(h, ops[0]), ops[1..]))
  }

  /** A block is large enough for its request, and what is left over is too small for another. */
  predicate Fitting(size: int, request: int) {
    request <= size < RoundUp(request, ALIGNMENT) + HEADER + ALIGNMENT
  }

  /** Live pointers and blocks in use correspond, and every block fits its request. */
  ghost predicate LiveMatches(bs: seq<Block>, live: map<int, int>) { Matches(Used(bs), live) }

  ghost predicate Matches(used: set<Block>, live: map<int, int>) {
    && (forall b :: b in used ==> b.Payload() in live && Fitting(b.size, live[b.Payload()]))
    && (forall p :: p in live ==> exists b :: b in used && b.Payload() == p)
  }

  predicate ShowHeap(i: int) { true }

  /** The invariant, kept folded: `assert ShowHeap(0)` opens it. */
  ghost predicate Inv(h: Heap) {
    forall i {:trigger ShowHeap(i)} :: ShowHeap(i) ==> InvCore(h)
  }

  ghost predicate InvCore(h: Heap) {
    && HeapInv(h.bs, BASE, h.end)
    && h.end % PAGE == 0 && h.end < LIMIT
    && LiveMatches(h.bs, h.live)
  }

  lemma EndAbove(h: Heap)
    requires Inv(h)
    ensures BASE <= h.end < LIMIT
  {
    assert ShowHeap(0);
    AllOrdered(h.bs, BASE, h.end);
    assert h.bs != [] ==> GoodSize(h.bs[0].size);
  }

  lemma SearchedKeeps(h: Heap, s: int, grows: bool)
    requires Inv(h) && 0 <= s < LIMIT
    requires FirstFit(h.bs, s) < |h.bs| || !grows || Fits(h.end, GrowBytes(s))
    ensures var (bs, end) := Searched(h, s, grows);
            HeapInv(bs, BASE, end) && end % PAGE == 0 && end < LIMIT && Used(bs) == Used(h.bs) && h.end <= end
  {
    assert ShowHeap(0);
    EndAbove(h);
    GrowthRange(s);
    SearchedIs(h, s, grows);
    if grows && FirstFit(h.bs, s) == |h.bs| {
      GrowthSize(GrowBytes(s));
      assert (h.end + GrowBytes(s)) % PAGE == 0;
      GrowKeeps(h.bs, BASE, h.end, GrowBytes(s));
      GrowUses(h.bs, h.end, GrowBytes(s));
    }
  }

  lemma MallocKeeps(h: Heap, size: int, grows: bool)
    requires Inv(h) && Legal(h, Malloc(size, grows))
    ensures Inv(MallocStep(h, size, grows))
  {
    assert ShowHeap(0);
    if size > 0 {
      var s := RoundUp(size, ALIGNMENT);
      RequestRounds(size);
      SearchedKeeps(h, s, grows);
      var (bs, end) := Searched(h, s, grows);
      var i := FirstFit(bs, s);
      MallocIs(h, size, grows, bs, end, i);
      if i < |bs| {
        TakeKeeps(bs, i, s, BASE, end);
        TakeMatches(bs, end, i, s, h.live, size);
      }
    }
  }

  lemma TakeMatches(bs: seq<Block>, end: int, i: nat, s: int, live: map<int, int>, size: int)
    requires HeapInv(bs, BASE, end) && LiveMatches(bs, live) && GoodSize(s) && s == RoundUp(size, ALIGNMENT) >= size
    requires i < |bs| && bs[i].free && bs[i].size >= s
    ensures LiveMatches(Take(bs, i, s), live[bs[i].Payload() := size])
  {
    TakeUses(bs, i, s);
    NewPointer(bs, BASE, end, i, Used(bs));
    var bs', live' := Take(bs, i, s), live[bs[i].Payload() := size];
    assert Fitting(bs'[i].size, size);
    forall p | p in live'
      ensures exists b :: b in Used(bs') && b.Payload() == p
    {
      if p == bs[i].Payload() {
        assert bs'[i] in Used(bs');
      } else {
        var b :| b in Used(bs) && b.Payload() == p;
        assert b in Used(bs');
      }
    }
  }

  /** No block in use has the payload address of a free block. */
  lemma NewPointer(bs: seq<Block>, base: int, end: int, i: nat, used: set<Block>)
    requires Tiles(bs, base, end) && i < |bs| && bs[i].free && used == Used(bs)
    ensures forall b :: b in used ==> b.Payload() != bs[i].Payload()
  {
    AllOrdered(bs, base, end);
    forall b | b in used
      ensures b.Payload() != bs[i].Payload()
    {
      var k :| 0 <= k < |bs| && bs[k] == b;
    }
  }

  lemma UsedAddressesDiffer(bs: seq<Block>, base: int, end: int, b: Block, c: Block)
    requires Tiles(bs, base, end) && b in bs && c in bs && b != c
    ensures b.End() <= c.addr || c.End() <= b.addr
  {
    AllOrdered(bs, base, end);
    var j :| 0 <= j < |bs| && bs[j] == b;
    var k :| 0 <= k < |bs| && bs[k] == c;
  }

  /** A live pointer is found, at a block in use. */
  lemma LiveBlock(h: Heap, ptr: int)
    requires Inv(h) && ptr in h.live
    ensures BlockOf(h.bs, ptr) < |h.bs| && !h.bs[BlockOf(h.bs, ptr)].free
  {
    assert ShowHeap(0);
    var b :| b in Used(h.bs) && b.Payload() == ptr;
    var k :| 0 <= k < |h.bs| && h.bs[k] == b;
    PayloadFound(h.bs, BASE, h.end, k);
  }

  /** Payload addresses are distinct, so looking one up finds its own block. */
  lemma PayloadFound(bs: seq<Block>, base: int, end: int, k: nat)
    requires Tiles(bs, base, end) && k < |bs|
    ensures BlockOf(bs, bs[k].Payload()) == k
  {
    AllOrdered(bs, base, end);
    var i := BlockOf(bs, bs[k].Payload());
    assert bs[i].Payload() == bs[k].Payload() && GoodSize(bs[i].size) && GoodSize(bs[k].size);
  }

  lemma FreeKeeps(h: Heap, ptr: int)
    requires Inv(h) && Legal(h, Free(ptr))
    ensures Inv(FreeStep(h, ptr))
  {
    assert ShowHeap(0);
    if ptr in h.live && ptr != 0 {
      LiveBlock(h, ptr);
      var i := BlockOf(h.bs, ptr);
      ReleaseKeeps(h.bs, i, BASE, h.end);
      ReleaseMatches(h.bs, h.end, i, h.live);
    }
  }

  lemma ReleaseMatches(bs: seq<Block>, end: int, i: nat, live: map<int, int>)
    requires HeapInv(bs, BASE, end) && LiveMatches(bs, live) && i < |bs| && !bs[i].free
    ensures LiveMatches(Release(bs, i), live - {bs[i].Payload()})
  {
    ReleaseUses(bs, i, BASE, end);
    var bs', live' := Release(bs, i), live - {bs[i].Payload()};
    forall b | b in Used(bs')
      ensures b.Payload() in live'
    {
      UsedAddressesDiffer(bs, BASE, end, b, bs[i]);
      assert exists k :: 0 <= k < |bs| && bs[k] == b;
    }
    forall p | p in live'
      ensures exists b :: b in Used(bs') && b.Payload() == p
    {
      var b :| b in Used(bs) && b.Payload() == p;
      assert b in Used(bs');
    }
  }

  /** kfree() of a live pointer takes exactly that pointer and its block out of use. */
  lemma FreeTakesOne(h: Heap, ptr: int)
    requires Inv(h) && ptr in h.live
    ensures BlockOf(h.bs, ptr) < |h.bs|
    ensures FreeStep(h, ptr).live == h.live - {ptr} && FreeStep(h, ptr).end == h.end
    ensures Used(FreeStep(h, ptr).bs) == Used(h.bs) - {h.bs[BlockOf(h.bs, ptr)]}
  {
    assert ShowHeap(0);
    LiveBlock(h, ptr);
    LivePayloads(h, ptr);
    ReleaseUses(h.bs, BlockOf(h.bs, ptr), BASE, h.end);
  }

  /** What a call returns: kmalloc() a pointer, kfree() nothing. */
  function Result(h: Heap, op: Op): int {
    if op.Malloc? then MallocResult(h, op.size, op.grows) else 0
  }

  /** What each call of a run returned. */
  function Results(h: Heap, ops: seq<Op>): (r: seq<int>)
    ensures |r| == |ops|
    decreases |ops|
  {
    if ops == [] then [] else [Result(h, ops[0])] + Results(Step(h, ops[0]), ops[1..])
  }

  /** The pointers a caller has after a call, with the sizes asked for. */
  function Noted(has: map<int, int>, op: Op, result: int): map<int, int> {
    match op
    case Malloc(size, _) => if result == 0 then has else has[result := size]
    case Free(ptr) => has - {ptr}
  }

  /** The pointers handed out and not freed since, as a caller would note them from the calls and
      their results. */
  function Outstanding(has: map<int, int>, ops: seq<Op>, results: seq<int>): map<int, int>
    requires |results| == |ops|
    decreases |ops|
  {
    if ops == [] then has else Outstanding(Noted(has, ops[0], results[0]), ops[1..], results[1..])
  }

  /** In every run, what the heap holds in use is what its callers have and have not given back. */
  lemma {:induction false} LiveIsOutstanding(h: Heap, ops: seq<Op>)
    requires Inv(h) && LegalRun(h, ops)
    ensures Run(h, ops).live == Outstanding(h.live, ops, Results(h, ops))
    decreases |ops|
  {
    if ops != [] {
      var r := Results(h, ops);
      assert r[0] == Result(h, ops[0]) && r[1..] == Results(Step(h, ops[0]), ops[1..]);
      StepNotes(h, ops[0]);
      LiveIsOutstanding(Step(h, ops[0]), ops[1..]);
    }
  }

  lemma StepNotes(h: Heap, op: Op)
    requires Inv(h) && Legal(h, op)
    ensures Inv(Step(h, op)) && Step(h, op).live == Noted(h.live, op, Result(h, op))
  {
    match op
    case Malloc(size, grows) =>
      MallocKeeps(h, size, grows);
      MallocRecords(h, size, grows);
    case Free(ptr) =>
      FreeKeeps(h, ptr);
      NullIsNotLive(h);
      if ptr in h.live {
        FreeTakesOne(h, ptr);
      } else {
        assert h.live - {ptr} == h.live;
      }
  }

  lemma NullIsNotLive(h: Heap)
    requires Inv(h)
    ensures 0 !in h.live
  {
    if 0 in h.live {
      LivePayloads(h, 0);
      assert false;
    }
  }

  /** kmalloc() records the pointer that it returns, and changes nothing else about the live ones. */
  lemma MallocRecords(h: Heap, size: int, grows: bool)
    requires Inv(h) && Legal(h, Malloc(size, grows))
    ensures var p := MallocResult(h, size, grows);
      MallocStep(h, size, grows).live == if p == 0 then h.live else h.live[p := size]
  {
    if size != 0 {
      var s := RoundUp(size, ALIGNMENT);
      var (bs, end) := Searched(h, s, grows);
      MallocIs(h, size, grows, bs, end, FirstFit(bs, s));
      PayloadPositive(h, size, grows, bs, end, FirstFit(bs, s));
    }
  }

  /** The heap invariant holds after every legal run. */
  lemma {:induction false} RunKeeps(h: Heap, ops: seq<Op>)
    requires Inv(h) && LegalRun(h, ops)
    ensures Inv(Run(h, ops))
    decreases |ops|
  {
    if ops != [] {
      match ops[0] {
        case Malloc(size, grows) => MallocKeeps(h, size, grows);
        case Free(ptr) => FreeKeeps(h, ptr);
      }
      RunKeeps(Step(h, ops[0]), ops[1..]);
    }
  }

  /** What the invariant means for callers: every live payload is aligned, inside the heap, as
      large as requested, and disjoint from every other live payload and every header. */
  lemma LivePayloads(h: Heap, p: int)
    requires Inv(h) && p in h.live
    ensures BlockOf(h.bs, p) < |h.bs|
    ensures var b := h.bs[BlockOf(h.bs, p)];
            && p % ALIGNMENT == 0 && BASE <= p && p + h.live[p] <= p + b.size <= h.end
            && b.size < RoundUp(h.live[p], ALIGNMENT) + HEADER + ALIGNMENT
            && (forall c :: c in h.bs && c != b ==> p + b.size <= c.addr || c.End() <= p - HEADER)
  {
    assert ShowHeap(0);
    LiveBlock(h, p);
    var i := BlockOf(h.bs, p);
    Aligned(h.bs, BASE, h.end, i);
    AllOrdered(h.bs, BASE, h.end);
    assert h.bs[i] in Used(h.bs);
    forall c | c in h.bs && c != h.bs[i]
      ensures p + h.bs[i].size <= c.addr || c.End() <= p - HEADER
    {
      UsedAddressesDiffer(h.bs, BASE, h.end, h.bs[i], c);
    }
  }

  /** Once everything is freed, the heap is a single free block. */
  lemma AllFreed(h: Heap)
    requires Inv(h) && h.live == map[]
    ensures h.end == BASE || h.bs == [Block(BASE, h.end - BASE - HEADER, true)]
  {
    assert ShowHeap(0);
    NotAllFree(h.bs);
    assert forall i :: 0 <= i < |h.bs| ==> h.bs[i].free by {
      forall i | 0 <= i < |h.bs|
        ensures h.bs[i].free
      {
        assert h.bs[i] in h.bs;
        assert h.bs[i] !in Used(h.bs);
      }
    }
  }

  lemma NotAllFree(bs: seq<Block>)
    requires Coalesced(bs)
    ensures |bs| > 1 ==> !bs[0].free || !bs[1].free
  {
    assert |bs| > 1 ==> NotBothFree(bs, 0);
  }

  /** The grown list always has a block for the request. */
  lemma GrownFits(bs: seq<Block>, base: int, end: int, s: int)
    requires Tiles(bs, base, end) && GrowBytes(s) >= s + HEADER
    ensures var bs' := Grow(bs, end, GrowBytes(s)); FirstFit(bs', s) < |bs'|
  {
    var bs' := Grow(bs, end, GrowBytes(s));
    var last := bs'[|bs'| - 1];
    assert bs == [] || GoodSize(bs[|bs| - 1].size);
    assert last.free && last.size >= s;
  }

  /** No block of the heap is as large as a request above 2^64 - 4128. */
  lemma TooLarge(bs: seq<Block>, end: int, s: int)
    requires Tiles(bs, BASE, end) && end < LIMIT && s >= LIMIT - 4128
    ensures FirstFit(bs, s) == |bs|
  {
    AllOrdered(bs, BASE, end);
    var i := FirstFit(bs, s);
    assert i < |bs| ==> bs[i].End() <= end;
  }

  /** kmalloc() returns null exactly for size 0, or when no block fits and either growth fails or
      the size is above 2^64 - 32: the growth of those wraps to a single page. */
  lemma NullExactly(h: Heap, size: int, grows: bool)
    requires Inv(h) && Legal(h, Malloc(size, grows))
    ensures MallocResult(h, size, grows) == 0 <==>
            size == 0 || (FirstFit(h.bs, RoundUp(size, ALIGNMENT)) == |h.bs| && (!grows || size > LIMIT - 32))
  {
    assert ShowHeap(0);
    if size > 0 {
      var s := RoundUp(size, ALIGNMENT);
      RequestRounds(size);
      SearchedKeeps(h, s, grows);
      var (bs, end) := Searched(h, s, grows);
      AllOrdered(bs, BASE, end);
      if size > LIMIT - 4128 {
        TooLarge(h.bs, h.end, s);
        TooLarge(bs, end, s);
      } else if grows {
        RoundingExact(size);
        GrownFits(h.bs, BASE, h.end, s);
      }
    }
  }

  /** A request above 2^64 - 32 and up to 2^64 - 16 adds a page to the heap and is refused all the
      same. */
  lemma GrownAndRefused(h: Heap, size: int)
    requires Inv(h) && LIMIT - 32 < size <= LIMIT - 16 && h.end + PAGE < LIMIT
    ensures MallocResult(h, size, true) == 0
    ensures MallocStep(h, size, true) == Heap(Grow(h.bs, h.end, PAGE), h.end + PAGE, h.live) && Inv(MallocStep(h, size, true))
  {
    var s := RoundUp(size, ALIGNMENT);
    RequestRounds(size);
    OversizeRounds(size);
    assert ShowHeap(0);
    EndAbove(h);
    TooLarge(h.bs, h.end, s);
    NullExactly(h, size, true);
    MallocKeeps(h, size, true);
    SearchedIs(h, s, true);
    SearchedKeeps(h, s, true);
    TooLarge(Grow(h.bs, h.end, PAGE), h.end + PAGE, s);
    MallocIs(h, size, true, Grow(h.bs, h.end, PAGE), h.end + PAGE, FirstFit(Grow(h.bs, h.end, PAGE), s));
  }

  /** A request above 2^64 - 4128 and up to 2^64 - 32 grows the heap by nothing, which reports
      success. It is refused when the last block is free; otherwise a block that reaches past the
      top of the address space is found for it. */
  lemma GrownByNothing(h: Heap, size: int)
    requires Inv(h) && LIMIT - 4128 < size <= LIMIT - 32
    ensures GrowBytes(RoundUp(size, ALIGNMENT)) == 0 && !Roomy(h, size)
    ensures MallocResult(h, size, true) == if h.bs != [] && h.bs[|h.bs| - 1].free then 0 else h.end + HEADER
    ensures MallocResult(h, size, true) != 0 ==>
      !Inv(Heap(Searched(h, RoundUp(size, ALIGNMENT), true).0, h.end, h.live))
  {
    var s := RoundUp(size, ALIGNMENT);
    RequestRounds(size);
    RoundUpIs(size, ALIGNMENT);
    assert s <= LIMIT - HEADER;
    assert ShowHeap(0);
    TooLarge(h.bs, h.end, s);
    var bs := GrowNothing(h.bs, h.end);
    MallocIs(h, size, true, bs, h.end, FirstFit(bs, s));
    NothingFits(h.bs, h.end, s);
  }

  lemma NothingFits(bs: seq<Block>, end: int, s: int)
    requires FirstFit(bs, s) == |bs| && s <= LIMIT - HEADER
    ensures var bs' := GrowNothing(bs, end);
      && FirstFit(bs', s) == |bs|
      && (|bs'| > |bs| ==> bs'[|bs|] == Block(end, LIMIT - HEADER, true) && !Tiles(bs', BASE, end))
  {
    var bs' := GrowNothing(bs, end);
    if |bs'| > |bs| {
      assert forall k :: 0 <= k < |bs| ==> bs'[k] == bs[k];
      assert bs'[|bs|].End() > end;
    }
  }

  /** Freeing the pointer just allocated undoes the allocation. */
  lemma FreeUndoesMalloc(h: Heap, size: int)
    requires Inv(h) && Legal(h, Malloc(size, false)) && MallocResult(h, size, false) != 0
    ensures var p := MallocResult(h, size, false);
            FreeStep(MallocStep(h, size, false), p) == h
  {
    assert ShowHeap(0);
    var s := RoundUp(size, ALIGNMENT);
    RequestRounds(size);
    var i := FirstFit(h.bs, s);
    var p := h.bs[i].Payload();
    var bs' := Take(h.bs, i, s);
    TakeKeeps(h.bs, i, s, BASE, h.end);
    TakeUses(h.bs, i, s);
    AllOrdered(bs', BASE, h.end);
    NewPointer(h.bs, BASE, h.end, i, Used(h.bs));
    assert BlockOf(bs', p) == i;
    assert p !in h.live;
    assert h.live[p := size] - {p} == h.live;
    ReleaseUndoesTake(h.bs, i, s);
  }

  lemma MergeUndoesTake(bs: seq<Block>, i: nat, s: int)
    requires Coalesced(bs) && i < |bs| && bs[i].free && bs[i].size >= s
    ensures i < |Take(bs, i, s)| && Merge(SetFree(Take(bs, i, s), i, true), i) == bs
  {
    if bs[i].size < s + HEADER + ALIGNMENT {
      assert SetFree(Take(bs, i, s), i, true) == bs;
      if i + 1 < |bs| {
        assert NotBothFree(bs, i);
      }
    } else {
      var tail := Block(bs[i].addr + HEADER + s, bs[i].size - s - HEADER, true);
      var b1 := bs[..i] + [bs[i].(size := s), tail] + bs[i + 1..];
      assert SetFree(Take(bs, i, s), i, true) == b1;
      assert b1[..i] == bs[..i] && b1[i + 2..] == bs[i + 1..];
      assert bs[..i] + [bs[i]] + bs[i + 1..] == bs;
    }
  }

  lemma ReleaseUndoesTake(bs: seq<Block>, i: nat, s: int)
    requires Coalesced(bs) && i < |bs| && bs[i].free && bs[i].size >= s
    ensures i < |Take(bs, i, s)| && Release(Take(bs, i, s), i) == bs
  {
    MergeUndoesTake(bs, i, s);
    if i > 0 {
      assert NotBothFree(bs, i - 1);
    }
  }

  // ----- requests that the arithmetic does not cover -----

  /** A request that no block fits and whose growth reports success keeps the invariant exactly when
      the growth stays below the top of the address space. */
  lemma GrowthKeepsExactly(h: Heap, size: int)
    requires Inv(h) && 0 < size <= LIMIT - 4128 && FirstFit(h.bs, RoundUp(size, ALIGNMENT)) == |h.bs|
    ensures Inv(MallocStep(h, size, true)) <==> h.end + GrowBytes(RoundUp(size, ALIGNMENT)) < LIMIT
  {
    var s := RoundUp(size, ALIGNMENT);
    RoundingExact(size);
    GrowBytesIs(s);
    EndAbove(h);
    if h.end + GrowBytes(s) < LIMIT {
      MallocKeeps(h, size, true);
    } else {
      WrappedBreaks(h, size);
    }
  }

  lemma WrappedBreaks(h: Heap, size: int)
    requires Inv(h) && 0 < size <= LIMIT - 4128 && FirstFit(h.bs, RoundUp(size, ALIGNMENT)) == |h.bs|
    requires h.end + GrowBytes(RoundUp(size, ALIGNMENT)) >= LIMIT
    ensures !Inv(MallocStep(h, size, true)) && MallocStep(h, size, true).end < h.end
  {
    var s := RoundUp(size, ALIGNMENT);
    RoundingExact(size);
    GrowBytesIs(s);
    RoundUpIs(size, ALIGNMENT);
    EndAbove(h);
    var (bs, end) := Searched(h, s, true);
    var i := FirstFit(bs, s);
    MallocIs(h, size, true, bs, end, i);
    assert end == h.end + GrowBytes(s) - LIMIT;
    assert ShowHeap(0);
    GrownFits(h.bs, BASE, h.end, s);
    GrowKeeps(h.bs, BASE, h.end, GrowBytes(s));
    TakeKeeps(bs, i, s, BASE, h.end + GrowBytes(s));
    OneEnd(Take(bs, i, s), h.end + GrowBytes(s), end);
  }

  /** A list of blocks ends in one place. */
  lemma OneEnd(bs: seq<Block>, end: int, end': int)
    requires bs != [] && Tiles(bs, BASE, end) && end != end'
    ensures !Tiles(bs, BASE, end')
  {
  }

  /** One terabyte rounds exactly and is still lost: the range wraps, so that the loop that maps it
      runs from above its end, and the heap's end falls below its base. */
  lemma TerabyteIsLost()
    ensures var h := Heap([], BASE, map[]);
      && Inv(h) && RoundUp(0x100_0000_0000, ALIGNMENT) == 0x100_0000_0000
      && (BASE + GrowBytes(0x100_0000_0000)) % LIMIT < BASE
      && !Inv(MallocStep(h, 0x100_0000_0000, true))
  {
    EmptyInv();
    TerabyteRounds();
    GrowthKeepsExactly(Heap([], BASE, map[]), 0x100_0000_0000);
  }

  lemma EmptyInv()
    ensures Inv(Heap([], BASE, map[]))
  {
  }

  lemma TerabyteRounds()
    ensures RoundUp(0x100_0000_0000, ALIGNMENT) == 0x100_0000_0000 && GrowBytes(0x100_0000_0000) == 0x100_0000_1000
    ensures (BASE + GrowBytes(0x100_0000_0000)) % LIMIT < BASE
  {
  }

  /** A request of more than 2^64 - 16 bytes rounds to 0, so any free block serves it: the caller
      gets a payload of fewer than 48 bytes, and the invariant is gone. */
  lemma HugeRequestBreaks(h: Heap, size: int, grows: bool)
    requires Inv(h) && LIMIT - 16 < size < LIMIT && MallocResult(h, size, grows) != 0
    ensures var h', p := MallocStep(h, size, grows), MallocResult(h, size, grows);
      && p in h'.live && h'.live[p] == size
      && (exists b :: b in Used(h'.bs) && b.Payload() == p && b.size < 48)
      && !Inv(h')
  {
    OversizeRounds(size);
    assert ShowHeap(0);
    var (bs, end) := Searched(h, 0, grows);
    var i := FirstFit(bs, 0);
    MallocIs(h, size, grows, bs, end, i);
    TakeUses(bs, i, 0);
    var h' := MallocStep(h, size, grows);
    assert h'.bs[i] in Used(h'.bs);
  }

  /** It is refused only when there is no free block at all and growth fails. */
  lemma HugeRequestServed(h: Heap, size: int, grows: bool)
    requires Inv(h) && LIMIT - 16 < size < LIMIT
    ensures MallocResult(h, size, grows) != 0 <==> grows || exists b :: b in h.bs && b.free
  {
    OversizeRounds(size);
    assert ShowHeap(0);
    EndAbove(h);
    FreeFitsNothing(h.bs, h.end);
    var (bs, end) := Searched(h, 0, grows);
    MallocIs(h, size, grows, bs, end, FirstFit(bs, 0));
    if grows {
      GrownPayloads(h.bs, h.end);
    }
    AllOrdered(h.bs, BASE, h.end);
  }

  lemma GrownPayloads(bs: seq<Block>, end: int)
    requires Tiles(bs, BASE, end) && BASE <= end
    ensures var bs' := Grow(bs, end, GrowBytes(0)); FirstFit(bs', 0) < |bs'| && bs'[FirstFit(bs', 0)].Payload() > 0
  {
    GrowBytesIs(0);
    PageIsAligned(GrowBytes(0));
    GrownFits(bs, BASE, end, 0);
    GrowTiles(bs, BASE, end, GrowBytes(0));
    AllOrdered(Grow(bs, end, GrowBytes(0)), BASE, end + GrowBytes(0));
  }

  /** Any free block fits a request of nothing. */
  lemma FreeFitsNothing(bs: seq<Block>, end: int)
    requires Tiles(bs, BASE, end)
    ensures FirstFit(bs, 0) < |bs| <==> exists b :: b in bs && b.free
  {
    var i := FirstFit(bs, 0);
    if i < |bs| {
      assert bs[i] in bs;
    } else {
      assert forall k :: 0 <= k < |bs| ==> GoodSize(bs[k].size) && !bs[k].free;
    }
  }

  // ----- growth that fails half-way -----

  /** The heap and the end of the pages that are mapped for it. */
  datatype System = System(heap: Heap, mapped: int)

  /** `got` is how many bytes map_heap_range() maps if it is called on a heap that ends where the
      mapped pages end. */
  datatype Event = Alloc(size: int, got: int) | Dealloc(ptr: int)

  /** Pages are left mapped past the end of the heap. */
  predicate Stale(s: System) { s.heap.end < s.mapped }

  predicate Tries(s: System, size: int) {
    size != 0 && FirstFit(s.heap.bs, RoundUp(size, ALIGNMENT)) == |s.heap.bs| && !Stale(s)
  }

  function Next(s: System, e: Event): System {
    match e
    case Dealloc(ptr) => System(FreeStep(s.heap, ptr), s.mapped)
    case Alloc(size, got) =>
      if Tries(s, size) then System(MallocStep(s.heap, size, got == GrowBytes(RoundUp(size, ALIGNMENT))), s.mapped + got)
      else System(MallocStep(s.heap, size, false), s.mapped)
  }

  predicate Possible(s: System, e: Event) {
    match e
    case Dealloc(ptr) => Legal(s.heap, Free(ptr))
    case Alloc(size, got) => Legal(s.heap, Malloc(size, true)) && (Tries(s, size) ==> 0 <= got <= GrowBytes(RoundUp(size, ALIGNMENT)))
  }

  predicate PossibleRun(s: System, es: seq<Event>)
    decreases |es|
  {
    es == [] || (Possible(s, es[0]) && PossibleRun(Next(s, es[0]), es[1..]))
  }

  function After(s: System, es: seq<Event>): System
    decreases |es|
  {
    if es == [] then s else After(Next(s, es[0]), es[1..])
  }

  ghost predicate SystemInv(s: System) { Inv(s.heap) && s.heap.end <= s.mapped }

  lemma NextKeeps(s: System, e: Event)
    requires SystemInv(s) && Possible(s, e)
    ensures SystemInv(Next(s, e)) && s.mapped <= Next(s, e).mapped
    ensures Stale(s) ==> Next(s, e).mapped == s.mapped && Next(s, e).heap.end == s.heap.end
  {
    match e
    case Dealloc(ptr) => FreeKeeps(s.heap, ptr);
    case Alloc(size, got) =>
      MallocKeeps(s.heap, size, Tries(s, size) && got == GrowBytes(RoundUp(size, ALIGNMENT)));
      EndAbove(s.heap);
      EndAfter(s.heap, size, Tries(s, size) && got == GrowBytes(RoundUp(size, ALIGNMENT)));
  }

  /** kmalloc() moves the end of the heap only when it grows it, and then by the growth. */
  lemma EndAfter(h: Heap, size: int, grows: bool)
    requires 0 <= h.end && Legal(h, Malloc(size, grows))
    ensures MallocStep(h, size, grows).end ==
      if size != 0 && grows && FirstFit(h.bs, RoundUp(size, ALIGNMENT)) == |h.bs| then h.end + GrowBytes(RoundUp(size, ALIGNMENT)) else h.end
  {
    if size > 0 {
      var s := RoundUp(size, ALIGNMENT);
      RequestRounds(size);
      GrowthRange(s);
      SearchedIs(h, s, grows);
      var (bs, end) := Searched(h, s, grows);
      MallocIs(h, size, grows, bs, end, FirstFit(bs, s));
    }
  }

  /** The invariant holds in every run, half-failed growths included; and a heap with pages left
      mapped past its end never grows again: in every run its end and the mapped pages stay. */
  lemma {:induction false} StaleForGood(s: System, es: seq<Event>)
    requires SystemInv(s) && PossibleRun(s, es)
    ensures SystemInv(After(s, es))
    ensures Stale(s) ==> After(s, es).heap.end == s.heap.end && After(s, es).mapped == s.mapped && Stale(After(s, es))
    decreases |es|
  {
    if es != [] {
      NextKeeps(s, es[0]);
      StaleForGood(Next(s, es[0]), es[1..]);
    }
  }

  /** What a caller of kmalloc() gets, from what the search and the pages did. */
  lemma MallocOutcome(s: System, size: int, grown: bool, got: int)
    requires SystemInv(s) && Legal(s.heap, Malloc(size, true)) && size != 0
    requires FirstFit(s.heap.bs, RoundUp(size, ALIGNMENT)) < |s.heap.bs| ==> !grown && got == 0
    requires grown ==> !Stale(s) && got == GrowBytes(RoundUp(size, ALIGNMENT))
    requires !grown && FirstFit(s.heap.bs, RoundUp(size, ALIGNMENT)) == |s.heap.bs| ==>
      if Stale(s) then got == 0 else 0 <= got < GrowBytes(RoundUp(size, ALIGNMENT))
    ensures Possible(s, Alloc(size, got)) && Next(s, Alloc(size, got)) == System(MallocStep(s.heap, size, grown), s.mapped + got)
    ensures Inv(MallocStep(s.heap, size, grown))
    ensures MallocResult(s.heap, size, grown) == 0 <==>
      FirstFit(s.heap.bs, RoundUp(size, ALIGNMENT)) == |s.heap.bs| && (!grown || size > LIMIT - 32)
    ensures var p := MallocResult(s.heap, size, grown);
      p != 0 ==> p !in s.heap.live && p in MallocStep(s.heap, size, grown).live && MallocStep(s.heap, size, grown).live[p] == size
  {
    MallocKeeps(s.heap, size, grown);
    NullExactly(s.heap, size, grown);
    MallocFresh(s.heap, size, grown);
  }

  /** The block that serves a request has a payload address. */
  lemma PayloadPositive(h: Heap, size: int, grows: bool, bs: seq<Block>, end: int, i: nat)
    requires Inv(h) && Legal(h, Malloc(size, true)) && size != 0
    requires (bs, end) == Searched(h, RoundUp(size, ALIGNMENT), grows) && i == FirstFit(bs, RoundUp(size, ALIGNMENT))
    ensures i < |bs| ==> bs[i].Payload() > 0
  {
    RequestRounds(size);
    SearchedKeeps(h, RoundUp(size, ALIGNMENT), grows);
    AllOrdered(bs, BASE, end);
  }

  /** A pointer handed out was not live before. */
  lemma MallocFresh(h: Heap, size: int, grows: bool)
    requires Inv(h) && Legal(h, Malloc(size, true)) && size != 0
    ensures var p := MallocResult(h, size, grows);
      p != 0 ==> p !in h.live && p in MallocStep(h, size, grows).live && MallocStep(h, size, grows).live[p] == size
  {
    assert ShowHeap(0);
    var s := RoundUp(size, ALIGNMENT);
    RequestRounds(size);
    SearchedKeeps(h, s, grows);
    var (bs, end) := Searched(h, s, grows);
    var i := FirstFit(bs, s);
    MallocIs(h, size, grows, bs, end, i);
    if i < |bs| {
      NewPointer(bs, BASE, end, i, Used(bs));
    }
  }
}
