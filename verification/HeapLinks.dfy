/** How struct heap_block headers in memory spell out the block list of mm/heap.c. */
module HeapLinks {
  import opened HeapBlocks

  /** Words of memory by address. */
  type Words = map<int, int>

  /** The header of block `b`: size, free flag, prev and next, eight bytes each. */
  ghost predicate HeaderAt(w: Words, b: Block, prev: int, next: int) {
    && b.addr in w && w[b.addr] == b.size
    && b.addr + 8 in w && w[b.addr + 8] == (if b.free then 1 else 0)
    && b.addr + 16 in w && w[b.addr + 16] == prev
    && b.addr + 24 in w && w[b.addr + 24] == next
  }

  function Prev(bs: seq<Block>, i: int): int
    requires 0 <= i < |bs|
  {
    if i > 0 then bs[i - 1].addr else 0
  }

  function Next(bs: seq<Block>, i: int): int
    requires 0 <= i < |bs|
  {
    if i + 1 < |bs| then bs[i + 1].addr else 0
  }

  ghost predicate LinkedAt(w: Words, bs: seq<Block>, i: int)
    requires 0 <= i < |bs|
  {
    HeaderAt(w, bs[i], Prev(bs, i), Next(bs, i))
  }

  /** Memory holds the doubly linked list `bs`, and first/last are its ends. */
  ghost predicate Linked(w: Words, bs: seq<Block>, first: int, last: int) {
    && (forall i :: 0 <= i < |bs| ==> LinkedAt(w, bs, i))
    && first == (if bs == [] then 0 else bs[0].addr)
    && last == (if bs == [] then 0 else bs[|bs| - 1].addr)
  }

  /** No word of a payload in use by a block of `keep` changed. */
  ghost predicate PayloadsKept(keep: set<Block>, w: Words, w': Words) {
    forall b, a :: b in keep && b.Payload() <= a < b.End() && a in w ==> a in w' && w'[a] == w[a]
  }

  /** A single word of a header changed. */
  lemma HeaderWrite(w: Words, bs: seq<Block>, base: int, end: int, i: nat, d: int, x: int)
    requires Tiles(bs, base, end) && i < |bs| && 0 <= d < HEADER
    ensures PayloadsKept(Used(bs), w, w[bs[i].addr + d := x])
  {
    AllOrdered(bs, base, end);
    forall b, a | b in Used(bs) && b.Payload() <= a < b.End() && a in w
      ensures a != bs[i].addr + d
    {
      var k :| 0 <= k < |bs| && bs[k] == b;
    }
  }

  lemma KeptTransitive(keep: set<Block>, w: Words, w': Words, w'': Words)
    requires PayloadsKept(keep, w, w') && PayloadsKept(keep, w', w'')
    ensures PayloadsKept(keep, w, w'')
  {
  }

  /** Headers at two addresses do not overlap. */
  predicate Apart(a: int, b: int) { a + HEADER <= b || b + HEADER <= a }

  lemma HeadersApart(bs: seq<Block>, base: int, end: int, i: int, j: int)
    requires Tiles(bs, base, end) && 0 <= i < |bs| && 0 <= j < |bs| && i != j
    ensures Apart(bs[i].addr, bs[j].addr)
  {
    assert GoodSize(bs[i].size) && GoodSize(bs[j].size);
    if i < j {
      Ordered(bs, base, end, i, j);
    } else {
      Ordered(bs, base, end, j, i);
    }
  }

  lemma AddressPositive(bs: seq<Block>, base: int, end: int, i: int)
    requires 0 < base && Tiles(bs, base, end) && 0 <= i < |bs|
    ensures base <= bs[i].addr && bs[i].addr + HEADER <= bs[i].End() <= end
  {
    assert GoodSize(bs[0].size) && GoodSize(bs[i].size);
    if i > 0 {
      Ordered(bs, base, end, 0, i);
    }
    if i < |bs| - 1 {
      Ordered(bs, base, end, i, |bs| - 1);
      assert GoodSize(bs[|bs| - 1].size);
    }
  }

  lemma FlaggedHeader(w: Words, bs: seq<Block>, i: nat, free: bool, k: nat)
    requires i < |bs| && k < |bs| && LinkedAt(w, bs, k) && (k != i ==> Apart(bs[k].addr, bs[i].addr))
    ensures LinkedAt(w[bs[i].addr + 8 := if free then 1 else 0], SetFree(bs, i, free), k)
  {
  }

  lemma SetFreeLinked(w: Words, bs: seq<Block>, base: int, end: int, first: int, last: int, i: nat, free: bool)
    requires Tiles(bs, base, end) && Linked(w, bs, first, last) && i < |bs|
    ensures Linked(w[bs[i].addr + 8 := if free then 1 else 0], SetFree(bs, i, free), first, last)
  {
    var w', bs' := w[bs[i].addr + 8 := if free then 1 else 0], SetFree(bs, i, free);
    forall k | 0 <= k < |bs'|
      ensures LinkedAt(w', bs', k)
    {
      if k != i {
        HeadersApart(bs, base, end, k, i);
      }
      FlaggedHeader(w, bs, i, free, k);
    }
  }

  /** The writes of block_merge_next() when the next block is free. */
  function MergeWrites(w: Words, block: int, size: int, nextNext: int): Words {
    var w' := w[block := size][block + 24 := nextNext];
    if nextNext != 0 then w'[nextNext + 16 := block] else w'
  }

  /** The writes leave a header elsewhere as it was. */
  lemma MergeElsewhere(w: Words, block: int, size: int, nextNext: int, b: Block, prev: int, next: int)
    requires HeaderAt(w, b, prev, next) && Apart(b.addr, block) && (nextNext != 0 ==> Apart(b.addr, nextNext))
    ensures HeaderAt(MergeWrites(w, block, size, nextNext), b, prev, next)
  {
  }

  /** The merged block gets its size and its new neighbour. */
  lemma MergeHere(w: Words, b: Block, size: int, nextNext: int, prev: int, next: int)
    requires HeaderAt(w, b, prev, next) && (nextNext != 0 ==> Apart(b.addr, nextNext))
    ensures HeaderAt(MergeWrites(w, b.addr, size, nextNext), b.(size := size), prev, nextNext)
  {
  }

  /** The block after it points back to it. */
  lemma MergeAfter(w: Words, block: int, size: int, b: Block, prev: int, next: int)
    requires HeaderAt(w, b, prev, next) && b.addr != 0 && Apart(b.addr, block)
    ensures HeaderAt(MergeWrites(w, block, size, b.addr), b, block, next)
  {
  }

  /** Each block of the merged list with its neighbours. */
  lemma MergedNeighbours(bs: seq<Block>, i: nat, j: nat)
    requires i + 1 < |bs| && bs[i + 1].free && j < |bs| && j != i + 1
    ensures var bs', k := Merge(bs, i), if j <= i then j else j - 1;
      && |bs'| == |bs| - 1
      && bs'[k] == (if j == i then bs[i].(size := bs'[i].size) else bs[j])
      && Prev(bs', k) == (if j == i + 2 then bs[i].addr else Prev(bs, j))
      && Next(bs', k) == (if j == i then Next(bs, i + 1) else Next(bs, j))
  {
    var k := if j <= i then j else j - 1;
    MergedAt(bs, i, k);
    if k > 0 {
      MergedAt(bs, i, k - 1);
    }
    if k + 1 < |bs| - 1 {
      MergedAt(bs, i, k + 1);
    }
  }

  lemma MergedHeader(w: Words, bs: seq<Block>, i: nat, j: nat)
    requires i + 1 < |bs| && bs[i + 1].free && j < |bs| && j != i + 1
    requires LinkedAt(w, bs, i) && LinkedAt(w, bs, j)
    requires j != i ==> Apart(bs[j].addr, bs[i].addr)
    requires i + 2 < |bs| ==> bs[i + 2].addr != 0 && Apart(bs[i].addr, bs[i + 2].addr)
    requires i + 2 < |bs| && j != i + 2 ==> Apart(bs[j].addr, bs[i + 2].addr)
    ensures var bs' := Merge(bs, i);
            LinkedAt(MergeWrites(w, bs[i].addr, bs'[i].size, Next(bs, i + 1)), bs', if j <= i then j else j - 1)
  {
    var bs' := Merge(bs, i);
    MergedNeighbours(bs, i, j);
    if j == i {
      MergeHere(w, bs[i], bs'[i].size, Next(bs, i + 1), Prev(bs, i), Next(bs, i));
    } else if j == i + 2 {
      MergeAfter(w, bs[i].addr, bs'[i].size, bs[j], Prev(bs, j), Next(bs, j));
    } else {
      MergeElsewhere(w, bs[i].addr, bs'[i].size, Next(bs, i + 1), bs[j], Prev(bs, j), Next(bs, j));
    }
  }

  lemma MergeLinked(w: Words, bs: seq<Block>, base: int, end: int, first: int, last: int, i: nat)
    requires 0 < base && Tiles(bs, base, end) && Linked(w, bs, first, last)
    requires i + 1 < |bs| && bs[i + 1].free
    ensures var bs' := Merge(bs, i);
            Linked(MergeWrites(w, bs[i].addr, bs'[i].size, Next(bs, i + 1)), bs', first,
                   if Next(bs, i + 1) == 0 then bs[i].addr else last)
  {
    var bs' := Merge(bs, i);
    var w' := MergeWrites(w, bs[i].addr, bs'[i].size, Next(bs, i + 1));
    forall k | 0 <= k < |bs'|
      ensures LinkedAt(w', bs', k)
    {
      MergedLink(w, bs, base, end, i, if k <= i then k else k + 1);
    }
    MergedEnds(bs, base, end, i);
  }

  lemma MergedLink(w: Words, bs: seq<Block>, base: int, end: int, i: nat, j: nat)
    requires 0 < base && Tiles(bs, base, end) && i + 1 < |bs| && bs[i + 1].free && j < |bs| && j != i + 1
    requires LinkedAt(w, bs, i) && LinkedAt(w, bs, j)
    ensures var bs' := Merge(bs, i);
            LinkedAt(MergeWrites(w, bs[i].addr, bs'[i].size, Next(bs, i + 1)), bs', if j <= i then j else j - 1)
  {
    if i + 2 < |bs| {
      HeadersApart(bs, base, end, i, i + 2);
      AddressPositive(bs, base, end, i + 2);
    }
    if j != i {
      HeadersApart(bs, base, end, j, i);
    }
    if i + 2 < |bs| && j != i + 2 {
      HeadersApart(bs, base, end, j, i + 2);
    }
    MergedHeader(w, bs, i, j);
  }

  /** The merged list begins where it began, and ends at the merged block if that was the last. */
  lemma MergedEnds(bs: seq<Block>, base: int, end: int, i: nat)
    requires 0 < base && Tiles(bs, base, end) && i + 1 < |bs| && bs[i + 1].free
    ensures var bs' := Merge(bs, i);
      && bs'[0].addr == bs[0].addr
      && bs'[|bs'| - 1].addr == if Next(bs, i + 1) == 0 then bs[i].addr else bs[|bs| - 1].addr
  {
    if i + 2 < |bs| {
      AddressPositive(bs, base, end, i + 2);
    }
  }

  lemma MergeKeepsPayloads(w: Words, bs: seq<Block>, base: int, end: int, first: int, last: int, i: nat)
    requires 0 < base && Tiles(bs, base, end) && Linked(w, bs, first, last)
    requires i + 1 < |bs| && bs[i + 1].free
    ensures PayloadsKept(Used(bs), w, MergeWrites(w, bs[i].addr, Merge(bs, i)[i].size, Next(bs, i + 1)))
  {
    var n := Next(bs, i + 1);
    var w1 := w[bs[i].addr := Merge(bs, i)[i].size];
    var w2 := w1[bs[i].addr + 24 := n];
    HeaderWrite(w, bs, base, end, i, 0, Merge(bs, i)[i].size);
    HeaderWrite(w1, bs, base, end, i, 24, n);
    KeptTransitive(Used(bs), w, w1, w2);
    if n != 0 {
      HeaderWrite(w2, bs, base, end, i + 2, 16, bs[i].addr);
      KeptTransitive(Used(bs), w, w2, w2[n + 16 := bs[i].addr]);
    }
  }

  /** The writes of block_split(): the tail's header, the block's size and the links. */
  function SplitWrites(w: Words, block: int, tail: int, size: int, tailSize: int, next: int): Words {
    var w' := w[tail := tailSize][tail + 8 := 1][block := size][tail + 16 := block][tail + 24 := next];
    (if next != 0 then w'[next + 16 := tail] else w')[block + 24 := tail]
  }

  lemma SplitHeader(w: Words, bs: seq<Block>, i: nat, size: int, j: nat)
    requires i < |bs| && bs[i].size >= size + HEADER + ALIGNMENT && size > 0 && j < |bs|
    requires LinkedAt(w, bs, i) && LinkedAt(w, bs, j)
    requires j != i ==> Apart(bs[j].addr, bs[i].addr) && Apart(bs[j].addr, Split(bs, i, size)[i + 1].addr)
    requires i + 1 < |bs| ==>
               && bs[i + 1].addr != 0 && Apart(bs[i].addr, bs[i + 1].addr)
               && Apart(Split(bs, i, size)[i + 1].addr, bs[i + 1].addr)
    requires i + 1 < |bs| && j != i + 1 ==> Apart(bs[j].addr, bs[i + 1].addr)
    ensures var bs' := Split(bs, i, size);
            var w' := SplitWrites(w, bs[i].addr, bs'[i + 1].addr, size, bs'[i + 1].size, Next(bs, i));
            LinkedAt(w', bs', if j <= i then j else j + 1)
  {
    var bs' := Split(bs, i, size);
    if j > i {
      assert bs'[j + 1] == bs[j] && Next(bs', j + 1) == Next(bs, j);
      assert Prev(bs', j + 1) == if j == i + 1 then bs'[i + 1].addr else Prev(bs, j);
    } else {
      assert bs'[j].addr == bs[j].addr && Prev(bs', j) == Prev(bs, j);
      assert Next(bs', j) == if j == i then bs'[i + 1].addr else Next(bs, j);
    }
  }

  lemma TailHeader(w: Words, bs: seq<Block>, i: nat, size: int)
    requires i < |bs| && bs[i].size >= size + HEADER + ALIGNMENT && size > 0
    requires i + 1 < |bs| ==> Apart(Split(bs, i, size)[i + 1].addr, bs[i + 1].addr)
    ensures var bs' := Split(bs, i, size);
            var w' := SplitWrites(w, bs[i].addr, bs'[i + 1].addr, size, bs'[i + 1].size, Next(bs, i));
            LinkedAt(w', bs', i + 1)
  {
  }

  lemma SplitLinked(w: Words, bs: seq<Block>, base: int, end: int, first: int, last: int, i: nat, size: int)
    requires 0 < base && Tiles(bs, base, end) && Linked(w, bs, first, last)
    requires i < |bs| && GoodSize(size) && bs[i].size >= size + HEADER + ALIGNMENT
    ensures var bs' := Split(bs, i, size);
            Linked(SplitWrites(w, bs[i].addr, bs'[i + 1].addr, size, bs'[i + 1].size, Next(bs, i)), bs', first,
                   if Next(bs, i) == 0 then bs'[i + 1].addr else last)
  {
    var bs' := Split(bs, i, size);
    SplitTiles(bs, i, size, base, end);
    var w' := SplitWrites(w, bs[i].addr, bs'[i + 1].addr, size, bs'[i + 1].size, Next(bs, i));
    if i + 1 < |bs| {
      HeadersApart(bs, base, end, i, i + 1);
      AddressPositive(bs, base, end, i + 1);
      HeadersApart(bs', base, end, i + 1, i + 2);
    }
    forall k | 0 <= k < |bs'|
      ensures LinkedAt(w', bs', k)
    {
      var j := if k <= i then k else k - 1;
      if j != i {
        HeadersApart(bs, base, end, j, i);
        HeadersApart(bs', base, end, if j <= i then j else j + 1, i + 1);
      }
      if i + 1 < |bs| && j != i + 1 {
        HeadersApart(bs, base, end, j, i + 1);
      }
      if k == i + 1 {
        TailHeader(w, bs, i, size);
      } else {
        SplitHeader(w, bs, i, size, j);
      }
    }
  }

  /** Splitting writes headers only: blocks in use elsewhere keep their payloads. */
  lemma SplitKeepsPayloads(w: Words, bs: seq<Block>, base: int, end: int, i: nat, size: int)
    requires 0 < base && Tiles(bs, base, end) && i < |bs| && bs[i].free
    requires GoodSize(size) && bs[i].size >= size + HEADER + ALIGNMENT
    ensures var bs' := Split(bs, i, size);
            PayloadsKept(Used(bs), w, SplitWrites(w, bs[i].addr, bs'[i + 1].addr, size, bs'[i + 1].size, Next(bs, i)))
  {
    var bs' := Split(bs, i, size);
    var n := Next(bs, i);
    var w' := SplitWrites(w, bs[i].addr, bs'[i + 1].addr, size, bs'[i + 1].size, n);
    forall b, a | b in Used(bs) && b.Payload() <= a < b.End() && a in w
      ensures a in w' && w'[a] == w[a]
    {
      var j :| 0 <= j < |bs| && bs[j] == b;
      if j < i {
        Ordered(bs, base, end, j, i);
      } else {
        Ordered(bs, base, end, i, j);
      }
      if i + 1 < |bs| && j != i + 1 {
        if j < i + 1 {
          Ordered(bs, base, end, j, i + 1);
        } else {
          Ordered(bs, base, end, i + 1, j);
        }
      }
      assert i + 1 < |bs| ==> GoodSize(bs[i + 1].size) && Abuts(bs, i);
      assert GoodSize(b.size);
    }
  }

  /** The writes of heap_extend(): the new header, then the old last block's link. */
  function AppendWrites(w: Words, block: int, size: int, last: int): Words {
    var w' := w[block := size][block + 8 := 1][block + 16 := last][block + 24 := 0];
    if last != 0 then w'[last + 24 := block] else w'
  }

  lemma AppendedHeader(w: Words, bs: seq<Block>, b: Block, j: nat)
    requires b.free && j < |bs| && LinkedAt(w, bs, j) && bs[|bs| - 1].addr != 0
    requires Apart(bs[j].addr, b.addr) && Apart(bs[|bs| - 1].addr, b.addr)
    requires j < |bs| - 1 ==> Apart(bs[j].addr, bs[|bs| - 1].addr)
    ensures LinkedAt(AppendWrites(w, b.addr, b.size, bs[|bs| - 1].addr), bs + [b], j)
  {
  }

  lemma AppendLinked(w: Words, bs: seq<Block>, base: int, end: int, first: int, last: int, size: int)
    requires 0 < base && Tiles(bs, base, end) && Linked(w, bs, first, last) && GoodSize(size)
    ensures Tiles(bs + [Block(end, size, true)], base, end + HEADER + size)
    ensures Linked(AppendWrites(w, end, size, last), bs + [Block(end, size, true)], if bs == [] then end else first, end)
    ensures PayloadsKept(Used(bs), w, AppendWrites(w, end, size, last))
  {
    var b := Block(end, size, true);
    var w', bs' := AppendWrites(w, end, size, last), bs + [b];
    forall k | 0 <= k < |bs'| - 1
      ensures Abuts(bs', k)
    {
      if k < |bs| - 1 {
        assert Abuts(bs, k);
      }
    }
    forall k | 0 <= k < |bs'|
      ensures LinkedAt(w', bs', k)
    {
      if bs != [] {
        AddressPositive(bs, base, end, |bs| - 1);
      }
      if k < |bs| {
        AddressPositive(bs, base, end, k);
        if k < |bs| - 1 {
          HeadersApart(bs, base, end, k, |bs| - 1);
        }
        AppendedHeader(w, bs, b, k);
      }
    }
    forall c, a | c in Used(bs) && c.Payload() <= a < c.End() && a in w
      ensures a in w' && w'[a] == w[a]
    {
      var j :| 0 <= j < |bs| && bs[j] == c;
      AddressPositive(bs, base, end, j);
      if j < |bs| - 1 {
        Ordered(bs, base, end, j, |bs| - 1);
      }
    }
  }

  // ----- the list as one fact -----
  //
  // `ListOk` and `Preserved` stay folded in a proof until it mentions `ShowList` or
  // `ShowPreserved`, which their definitions are guarded by.

  ghost predicate ShowList(j: int) { true }
  ghost predicate ShowPreserved(j: int) { true }

  /** The blocks tile [base, end), `end` is a page boundary inside the address space, and
      memory links exactly these blocks. */
  ghost predicate ListOk(w: Words, bs: seq<Block>, first: int, last: int, base: int, end: int) {
    forall j {:trigger ShowList(j)} :: ShowList(j) ==>
      0 < base && end % PAGE == 0 && end < LIMIT && Tiles(bs, base, end) && Linked(w, bs, first, last)
  }

  /** No payload in use was written. */
  ghost predicate Preserved(bs: seq<Block>, w: Words, w': Words) {
    forall j {:trigger ShowPreserved(j)} :: ShowPreserved(j) ==> PayloadsKept(Used(bs), w, w')
  }

  lemma PreservedTwice(bs: seq<Block>, bs': seq<Block>, w: Words, w': Words, w'': Words)
    requires Preserved(bs, w, w') && Preserved(bs', w', w'') && Used(bs) <= Used(bs')
    ensures Preserved(bs, w, w'')
  {
  }

  lemma PreservedFewer(bs: seq<Block>, bs': seq<Block>, w: Words, w': Words)
    requires Preserved(bs', w, w') && Used(bs) <= Used(bs')
    ensures Preserved(bs, w, w')
  {
  }

  lemma PreservedRefl(bs: seq<Block>, w: Words)
    ensures Preserved(bs, w, w)
  {
  }

  /** The header of block i, read back from memory. */
  lemma OkHeader(w: Words, bs: seq<Block>, first: int, last: int, base: int, end: int, i: nat)
    requires ListOk(w, bs, first, last, base, end) && i < |bs|
    ensures LinkedAt(w, bs, i)
    ensures 0 < base <= bs[i].addr && bs[i].End() <= end < LIMIT && 0 < bs[i].size
    ensures i + 1 < |bs| ==> base <= bs[i + 1].addr < end && bs[i].End() == bs[i + 1].addr
    ensures i > 0 ==> base <= bs[i - 1].addr < end
    ensures last == bs[|bs| - 1].addr
  {
    assert ShowList(0);
    AddressPositive(bs, base, end, i);
    assert GoodSize(bs[i].size);
    if i + 1 < |bs| {
      AddressPositive(bs, base, end, i + 1);
      assert Abuts(bs, i);
    }
    if i > 0 {
      AddressPositive(bs, base, end, i - 1);
    }
  }

  lemma OkMerge(w: Words, bs: seq<Block>, first: int, last: int, base: int, end: int, i: nat)
    requires ListOk(w, bs, first, last, base, end) && i + 1 < |bs| && bs[i + 1].free
    ensures var w' := MergeWrites(w, bs[i].addr, bs[i].size + HEADER + bs[i + 1].size, Next(bs, i + 1));
            && ListOk(w', Merge(bs, i), first, if Next(bs, i + 1) == 0 then bs[i].addr else last, base, end)
            && Preserved(bs, w, w')
  {
    assert ShowList(0);
    MergeTiles(bs, i, base, end);
    MergeLinked(w, bs, base, end, first, last, i);
    MergeKeepsPayloads(w, bs, base, end, first, last, i);
  }

  lemma OkSplit(w: Words, bs: seq<Block>, first: int, last: int, base: int, end: int, i: nat, size: int)
    requires ListOk(w, bs, first, last, base, end) && i < |bs| && bs[i].free
    requires GoodSize(size) && bs[i].size >= size + HEADER + ALIGNMENT
    ensures var tail := bs[i].addr + HEADER + size;
            var w' := SplitWrites(w, bs[i].addr, tail, size, bs[i].size - size - HEADER, Next(bs, i));
            && ListOk(w', Split(bs, i, size), first, if Next(bs, i) == 0 then tail else last, base, end)
            && Preserved(bs, w, w')
  {
    assert ShowList(0);
    SplitTiles(bs, i, size, base, end);
    SplitLinked(w, bs, base, end, first, last, i, size);
    SplitKeepsPayloads(w, bs, base, end, i, size);
  }

  lemma OkSetFree(w: Words, bs: seq<Block>, first: int, last: int, base: int, end: int, i: nat, free: bool)
    requires ListOk(w, bs, first, last, base, end) && i < |bs|
    ensures var w' := w[bs[i].addr + 8 := if free then 1 else 0];
            ListOk(w', SetFree(bs, i, free), first, last, base, end) && Preserved(bs, w, w')
  {
    assert ShowList(0);
    SetFreeTiles(bs, i, free, base, end);
    SetFreeLinked(w, bs, base, end, first, last, i, free);
    HeaderWrite(w, bs, base, end, i, 8, if free then 1 else 0);
  }

  lemma OkAppend(w: Words, bs: seq<Block>, first: int, last: int, base: int, end: int, bytes: int)
    requires ListOk(w, bs, first, last, base, end) && GoodSize(bytes) && bytes >= HEADER + ALIGNMENT
    requires bytes % PAGE == 0 && end + bytes < LIMIT
    ensures var w' := AppendWrites(w, end, bytes - HEADER, last);
            && ListOk(w', bs + [Block(end, bytes - HEADER, true)], if bs == [] then end else first, end, base, end + bytes)
            && Preserved(bs, w, w')
  {
    assert ShowList(0);
    GoodSizes(bytes, bytes);
    AppendLinked(w, bs, base, end, first, last, bytes - HEADER);
  }

  /** More mapped words do not disturb the list. */
  lemma OkMoreWords(w: Words, w': Words, bs: seq<Block>, first: int, last: int, base: int, end: int)
    requires ListOk(w, bs, first, last, base, end)
    requires forall a :: a in w ==> a in w' && w'[a] == w[a]
    ensures ListOk(w', bs, first, last, base, end) && Preserved(bs, w, w')
  {
    assert ShowList(0);
    forall k | 0 <= k < |bs|
      ensures LinkedAt(w', bs, k)
    {
      assert LinkedAt(w, bs, k);
    }
  }
}
