/** The physical page allocator (mm/page_alloc.c), the page-table operations
    (arch/x86/mm/page_table.c) and the mapped kernel heap region, over one memory.

    The free list is threaded through word 0 of the free pages, table pages are taken
    from that list, and heap words are reached by walking the tables. The ghost fields
    record which role every page of the pool plays. */
module VirtualMemory {
  import opened Errno
  import opened Division
  import Links
  import opened PageTree

  const HEAP_BASE := 0xffff_ff20_0000_0000
  const ADDRESS_LIMIT := 0x1_0000_0000_0000_0000

  /** The acyclic in-page list of free pages: each page's word 0 points to the next. */
  ghost predicate FreeList(m: Phys, head: int, count: int, free: seq<int>) {
    && count == |free|
    && head == (if free == [] then 0 else free[0])
    && Links.Distinct(free)
    && (forall i :: 0 <= i < |free| ==> PageAddr(free[i]) && free[i] in m && |m[free[i]]| == ENTRIES)
    && (forall i :: 0 <= i < |free| ==> m[free[i]][0] == Pointer(NextFree(free, i)))
  }

  function NextFree(free: seq<int>, i: nat): int {
    if i + 1 < |free| then free[i + 1] else 0
  }

  lemma PopFree(m: Phys, head: int, count: int, free: seq<int>)
    requires FreeList(m, head, count, free) && free != []
    ensures FreeList(m, m[head][0].Num(), count - 1, free[1..])
  {
  }

  lemma PushFree(m: Phys, head: int, count: int, free: seq<int>, page: int)
    requires FreeList(m, head, count, free)
    requires PageAddr(page) && page in m && |m[page]| == ENTRIES && page !in free
    ensures FreeList(m[page := m[page][0 := Pointer(head)]], page, count + 1, [page] + free)
  {
  }

  /** Every pool page is exactly one of: free, a table page, a heap leaf, held by a caller. */
  ghost predicate Partition(pool: set<int>, free: seq<int>, own: set<int>, leaves: seq<int>, held: set<int>) {
    && Links.Distinct(free) && Links.Distinct(leaves)
    && pool == (set x | x in free) + own + (set x | x in leaves) + held
    && (forall x :: x in free ==> x !in own && x !in leaves && x !in held)
    && (forall x :: x in leaves ==> x !in own && x !in held)
    && own !! held
  }

  lemma PartitionFree(pool: set<int>, free: seq<int>, own: set<int>, leaves: seq<int>, held: set<int>, page: int)
    requires Partition(pool, free, own, leaves, held) && page in held
    ensures Partition(pool, [page] + free, own, leaves, held - {page})
  {
  }

  lemma PartitionAlloc(pool: set<int>, free: seq<int>, own: set<int>, leaves: seq<int>, held: set<int>)
    requires Partition(pool, free, own, leaves, held) && free != []
    ensures Partition(pool, free[1..], own, leaves, held + {free[0]})
  {
  }

  lemma PartitionTable(pool: set<int>, free: seq<int>, own: set<int>, leaves: seq<int>, held: set<int>, page: int)
    requires Partition(pool, free, own, leaves, held) && page in held
    ensures Partition(pool, free, own + {page}, leaves, held - {page})
  {
  }

  /** The head of the free list goes to a caller. */
  lemma AllocMoves(m: Phys, head: int, count: int, pool: set<int>, free: seq<int>, own: set<int>, leaves: seq<int>, held: set<int>)
    requires FreeList(m, head, count, free) && Partition(pool, free, own, leaves, held)
    ensures head == 0 <==> free == []
    ensures head != 0 ==>
      && head in m && |m[head]| == ENTRIES && free == [head] + free[1..] && head !in held
      && FreeList(m, m[head][0].Num(), count - 1, free[1..]) && Partition(pool, free[1..], own, leaves, held + {head})
  {
    if free != [] {
      PopFree(m, head, count, free);
      PartitionAlloc(pool, free, own, leaves, held);
      assert PageAddr(free[0]);
    }
  }

  /** Writes outside the free pages keep the free list. */
  lemma NonFreeWrite(m: Phys, m': Phys, head: int, count: int, free: seq<int>)
    requires FreeList(m, head, count, free)
    requires forall x :: x in free ==> x in m' && m'[x] == m[x]
    ensures FreeList(m', head, count, free)
  {
  }

  /** Base address of the k-th page of the heap region. */
  function HeapPage(k: int): int { HEAP_BASE + 4096 * k }

  /** Which leaf page, and which slot of it, holds the word at a heap address. */
  function LeafIndex(a: int): int { (a - HEAP_BASE) / 4096 }
  function LeafSlot(a: int): (j: int)
    ensures 0 <= j < ENTRIES
  {
    (a - HEAP_BASE) % 4096 / 8
  }

  /** The words of the heap region, by virtual address, as the leaf pages hold them. */
  ghost function View(m: Phys, leaves: seq<int>): map<int, int> {
    map a | HEAP_BASE <= a < HEAP_BASE + 4096 * |leaves| && a % 8 == 0 ::
      Slot(m, leaves[LeafIndex(a)], LeafSlot(a)).Num()
  }

  /** A word store through a leaf page shows up in the view at one address. */
  lemma ViewStore(m: Phys, m': Phys, leaves: seq<int>, a: int, x: int)
    requires Links.Distinct(leaves) && a in View(m, leaves) && 0 <= x < ADDRESS_LIMIT
    requires forall p :: p in leaves ==> p in m && |m[p]| == ENTRIES
    requires leaves[LeafIndex(a)] in m && m' == m[leaves[LeafIndex(a)] := m[leaves[LeafIndex(a)]][LeafSlot(a) := WordOf(x)]]
    ensures View(m', leaves) == View(m, leaves)[a := x]
  {
    WordRoundTrip(x);
    var v, v' := View(m, leaves), View(m', leaves);
    forall b | b in v
      ensures v'[b] == v[a := x][b]
    {
      assert leaves[LeafIndex(b)] in leaves;
      if b != a {
        HeapAddress(a);
        HeapAddress(b);
        assert Slot(m', leaves[LeafIndex(b)], LeafSlot(b)) == Slot(m, leaves[LeafIndex(b)], LeafSlot(b));
      }
    }
    assert v' == v[a := x];
  }

  /** Every word of `w` is still there in `w'`. */
  ghost predicate Kept(w: map<int, int>, w': map<int, int>) {
    forall a :: a in w ==> a in w' && w'[a] == w[a]
  }

  lemma KeptTransitive(w: map<int, int>, w': map<int, int>, w'': map<int, int>)
    requires Kept(w, w') && Kept(w', w'')
    ensures Kept(w, w'')
  {
  }

  /** The view depends on the leaf pages alone; more leaves only add addresses. */
  lemma ViewGrows(m: Phys, m': Phys, leaves: seq<int>, leaves': seq<int>)
    requires |leaves| <= |leaves'| && leaves'[..|leaves|] == leaves
    requires forall p :: p in leaves ==> p in m && p in m' && m'[p] == m[p]
    ensures Kept(View(m, leaves), View(m', leaves'))
  {
    forall a | a in View(m, leaves)
      ensures a in View(m', leaves') && View(m', leaves')[a] == View(m, leaves)[a]
    {
      var k := (a - HEAP_BASE) / 4096;
      assert leaves[k] in leaves && leaves'[k] == leaves[k];
    }
  }

  lemma SameView(m: Phys, m': Phys, leaves: seq<int>)
    requires forall p :: p in leaves ==> p in m && p in m' && m'[p] == m[p]
    ensures View(m', leaves) == View(m, leaves)
  {
  }

  /** The tables map the k-th heap page to the k-th leaf page, for every leaf. */
  ghost predicate HeapMapped(m: Phys, root: int, leaves: seq<int>) {
    && HEAP_BASE + 4096 * |leaves| < ADDRESS_LIMIT
    && forall k :: 0 <= k < |leaves| ==> Backs(Walk(m, root, PathOf(HeapPage(k))), leaves[k])
  }

  /** Pages from HEAP_BASE to the top of the address space. */
  const HEAP_PAGES := 0xe00_0000

  lemma BelowTop(k: int)
    ensures HeapPage(k) <= ADDRESS_LIMIT <==> k <= HEAP_PAGES
    ensures HeapPage(k) % 4096 == 0
  {
  }

  /** No heap page from n on is mapped. */
  ghost predicate NothingAbove(m: Phys, root: int, n: nat) {
    forall k :: n <= k < HEAP_PAGES ==> Absent(m, root, k)
  }

  ghost predicate Absent(m: Phys, root: int, k: int) {
    !Walk(m, root, PathOf(HeapPage(k))).present
  }

  lemma SameAbove(m: Phys, m': Phys, root: int, slots: set<int>, n: nat)
    requires NothingAbove(m, root, n) && SameTranslations(m, m', root, slots) && forall i :: 510 <= i < 512 ==> i in slots
    ensures NothingAbove(m', root, n)
  {
    forall k | n <= k < HEAP_PAGES
      ensures Absent(m', root, k)
    {
      HeapPath(HeapPage(k));
      assert LeafPath(PathOf(HeapPage(k)), slots) && Absent(m, root, k);
    }
  }

  /** Mapping heap page n, or a page outside the heap region, leaves the pages above unmapped. */
  lemma OtherAbove(m: Phys, m': Phys, root: int, slots: set<int>, n: nat, n': nat, virt: int, e: Word)
    requires NothingAbove(m, root, n) && n <= n' && OneTranslation(m, m', root, slots, PathOf(virt), e)
    requires forall i :: 510 <= i < 512 ==> i in slots
    requires forall k :: n' <= k < HEAP_PAGES ==> Elsewhere(virt, k)
    ensures NothingAbove(m', root, n')
  {
    forall k | n' <= k < HEAP_PAGES
      ensures Absent(m', root, k)
    {
      HeapPath(HeapPage(k));
      assert LeafPath(PathOf(HeapPage(k)), slots) && Absent(m, root, k) && Elsewhere(virt, k);
    }
  }

  predicate Elsewhere(virt: int, k: int) {
    PathOf(virt) != PathOf(HeapPage(k))
  }

  // ----- how many pages a growth needs -----

  /** Tables missing on the way to heap page k. */
  function MissingAt(m: Phys, root: int, k: int): nat { Missing(m, root, PathOf(HeapPage(k))) }

  /** How many tables heap pages j and k share below the root. */
  function Shared(j: int, k: int): int {
    if HeapPage(j) / 0x20_0000 == HeapPage(k) / 0x20_0000 then 3
    else if HeapPage(j) / 0x4000_0000 == HeapPage(k) / 0x4000_0000 then 2
    else if HeapPage(j) / 0x80_0000_0000 == HeapPage(k) / 0x80_0000_0000 then 1
    else 0
  }

  lemma CommonIsShared(j: int, k: int)
    requires 0 <= j < HEAP_PAGES && 0 <= k < HEAP_PAGES
    ensures Common(PathOf(HeapPage(j)), PathOf(HeapPage(k))) == Shared(j, k)
  {
    var u, v := HeapPage(j), HeapPage(k);
    var p, q := PathOf(u), PathOf(v);
    SameTop(u, v);
    SameNext(u / 0x4000_0000, v / 0x4000_0000);
    SameNext(u / 0x20_0000, v / 0x20_0000);
    assert u / 0x4000_0000 / 512 == u / 0x80_0000_0000 && v / 0x4000_0000 / 512 == v / 0x80_0000_0000;
    assert u / 0x20_0000 / 512 == u / 0x4000_0000 && v / 0x20_0000 / 512 == v / 0x4000_0000;
    assert p[..1] == q[..1] <==> p[0] == q[0];
    assert p[..2] == q[..2] <==> p[0] == q[0] && p[1] == q[1];
    assert p[..3] == q[..3] <==> p[0] == q[0] && p[1] == q[1] && p[2] == q[2];
  }

  lemma SameTop(u: int, v: int)
    requires HEAP_BASE <= u < ADDRESS_LIMIT && HEAP_BASE <= v < ADDRESS_LIMIT
    ensures u / 0x80_0000_0000 % 512 == v / 0x80_0000_0000 % 512 <==> u / 0x80_0000_0000 == v / 0x80_0000_0000
  {
  }

  lemma SameNext(a: int, b: int)
    ensures a == b <==> a / 512 == b / 512 && a % 512 == b % 512
  {
  }

  /** Heap pages in between share at least as much. */
  lemma SharedMonotone(a: int, b: int, c: int)
    requires a <= b <= c
    ensures Shared(a, c) <= Shared(b, c)
  {
    Between(HeapPage(a), HeapPage(b), HeapPage(c), 0x20_0000);
    Between(HeapPage(a), HeapPage(b), HeapPage(c), 0x4000_0000);
    Between(HeapPage(a), HeapPage(b), HeapPage(c), 0x80_0000_0000);
  }

  lemma Between(u: int, v: int, w: int, n: int)
    requires u <= v <= w && n > 0
    ensures u / n == w / n ==> v / n == w / n
  {
    if u / n == w / n {
      Unique(v, n, u / n, v - u / n * n);
    }
  }

  /** Tables missing for heap page j once heap pages k .. k + n - 1 have been mapped. */
  function MissingThen(m: Phys, root: int, k: int, n: nat, j: int): int {
    if n == 0 then MissingAt(m, root, j) else Least(MissingAt(m, root, j), 3 - Shared(k + n - 1, j))
  }

  /** Pages that mapping n heap pages from k on takes: the leaves and the tables that they need. */
  function PagesNeeded(m: Phys, root: int, k: int, n: nat): int {
    if n == 0 then 0 else PagesNeeded(m, root, k, n - 1) + 1 + MissingThen(m, root, k, n - 1, k + n - 1)
  }

  ghost predicate ShowSpread(i: int) { true }

  /** Memory m is memory m0 with heap pages k .. k + n - 1 mapped, as far as tables go; folded. */
  ghost predicate Spread(m0: Phys, m: Phys, root: int, k: int, n: nat) {
    forall i {:trigger ShowSpread(i)} :: ShowSpread(i) ==>
      forall j :: k + n <= j < HEAP_PAGES ==> MissingAt(m, root, j) == MissingThen(m0, root, k, n, j)
  }

  lemma SpreadStart(m: Phys, root: int, k: int)
    ensures Spread(m, m, root, k, 0)
  {
  }

  lemma SpreadNext(m0: Phys, m: Phys, m': Phys, root: int, slots: set<int>, k: int, n: nat)
    requires Spread(m0, m, root, k, n) && 0 <= k && k + n < HEAP_PAGES && forall i :: 510 <= i < 512 ==> i in slots
    requires OpenedPath(m, m', root, slots, PathOf(HeapPage(k + n)))
    ensures Spread(m0, m', root, k, n + 1)
  {
    assert ShowSpread(0);
    forall j | k + n + 1 <= j < HEAP_PAGES
      ensures MissingAt(m', root, j) == MissingThen(m0, root, k, n + 1, j)
    {
      HeapPath(HeapPage(j));
      assert LeafPath(PathOf(HeapPage(j)), slots);
      CommonIsShared(k + n, j);
      assert MissingAt(m, root, j) == MissingThen(m0, root, k, n, j);
      SharedMonotone(k + n - 1, k + n, j);
    }
  }

  lemma SpreadHere(m0: Phys, m: Phys, root: int, k: int, n: nat)
    requires Spread(m0, m, root, k, n) && k + n < HEAP_PAGES
    ensures MissingAt(m, root, k + n) == MissingThen(m0, root, k, n, k + n)
  {
    assert ShowSpread(0);
  }

  /** More pages need more. */
  lemma {:induction false} NeededGrows(m: Phys, root: int, k: int, a: nat, n: nat)
    requires a <= n
    ensures PagesNeeded(m, root, k, a) <= PagesNeeded(m, root, k, n)
    decreases n
  {
    if a < n {
      NeededGrows(m, root, k, a, n - 1);
    }
  }

  /** Of n pages, `got` is as many as `count` free pages allow; kept folded. */
  ghost predicate Largest(m: Phys, root: int, k: int, n: nat, count: int, got: int) {
    forall i {:trigger ShowLargest(i)} :: ShowLargest(i) ==>
      && 0 <= got <= n && PagesNeeded(m, root, k, got) <= count
      && (got < n ==> PagesNeeded(m, root, k, got + 1) > count)
  }

  ghost predicate ShowLargest(i: int) { true }

  /** n of the heap pages from k on are mapped, and the free pages went down by what they need. */
  ghost predicate Mapping(m0: Phys, count0: int, m: Phys, count: nat, root: int, k: int, n: nat) {
    forall i {:trigger ShowSpread(i)} :: ShowSpread(i) ==>
      Spread(m0, m, root, k, n) && count == count0 - PagesNeeded(m0, root, k, n)
  }

  lemma MappingStart(m: Phys, count: nat, root: int, k: int)
    ensures Mapping(m, count, m, count, root, k, 0)
  {
    SpreadStart(m, root, k);
  }

  lemma MappingNext(m0: Phys, count0: int, m: Phys, count: nat, m': Phys, count': nat, root: int, slots: set<int>, k: int, n: nat, j: int)
    requires Mapping(m0, count0, m, count, root, k, n) && 0 <= k && j == k + n < HEAP_PAGES && forall i :: 510 <= i < 512 ==> i in slots
    requires OpenedPath(m, m', root, slots, PathOf(HeapPage(j))) && count' == count - 1 - MissingAt(m, root, j)
    ensures Mapping(m0, count0, m', count', root, k, n + 1)
  {
    assert ShowSpread(0);
    SpreadHere(m0, m, root, k, n);
    SpreadNext(m0, m, m', root, slots, k, n);
  }

  lemma MappingFails(m0: Phys, count0: int, m: Phys, count: nat, root: int, k: int, n: nat, total: nat)
    requires Mapping(m0, count0, m, count, root, k, n) && k + n < HEAP_PAGES && n < total && count < 1 + MissingAt(m, root, k + n)
    ensures PagesNeeded(m0, root, k, total) > count0 && Largest(m0, root, k, total, count0, n)
  {
    assert ShowSpread(0);
    SpreadHere(m0, m, root, k, n);
    NeededGrows(m0, root, k, n + 1, total);
  }

  lemma MappingDone(m0: Phys, count0: int, m: Phys, count: nat, root: int, k: int, n: nat)
    requires Mapping(m0, count0, m, count, root, k, n)
    ensures count == count0 - PagesNeeded(m0, root, k, n) && Largest(m0, root, k, n, count0, n)
  {
    assert ShowSpread(0);
  }

  /** The end of a range in 64-bit arithmetic: above its start exactly when the range is not empty
      and stays below the top. */
  lemma WrappedEnd(start: int, bytes: int)
    requires HEAP_BASE <= start < ADDRESS_LIMIT && start % 4096 == 0 && 0 <= bytes < ADDRESS_LIMIT && bytes % 4096 == 0
    ensures var end := (start + bytes) % ADDRESS_LIMIT;
      if 0 < bytes < ADDRESS_LIMIT - start then end == start + bytes == start + 4096 * (bytes / 4096) else end <= start
  {
  }

  /** Nothing is missing where a page is mapped. */
  lemma MappedMissesNothing(m: Phys, t: int, path: seq<int>)
    requires Walk(m, t, path).present
    ensures Missing(m, t, path) == 0
  {
    if Missing(m, t, path) > 0 {
      AbsentWalk(m, t, path);
    }
  }

  predicate MapsTo(e: Word, page: int) { e.present && e.page == page }

  /** The entry of a heap page: PAGE_PRESENT, PAGE_WRITABLE and PAGE_NO_EXECUTE. */
  predicate Backs(e: Word, page: int) { MapsTo(e, page) && e.Num() == page + 0x8000_0000_0000_0003 }

  lemma HeapPath(a: int)
    requires HEAP_BASE <= a < ADDRESS_LIMIT
    ensures 510 <= PathOf(a)[0] < 512
  {
  }

  lemma HeapPageNumber(k: int)
    requires 0 <= k && HeapPage(k) < ADDRESS_LIMIT
    ensures PageNumber(HeapPage(k)) == 0xf_f200_0000 + k
  {
  }

  /** Addresses of the same page take the same path. */
  lemma HeapPagePath(k: int, offset: int)
    requires 0 <= k && 0 <= offset < 4096
    ensures PathOf(HeapPage(k) + offset) == PathOf(HeapPage(k))
  {
    assert (HeapPage(k) + offset) / 4096 == HeapPage(k) / 4096;
    PathsArePageNumbers(HeapPage(k) + offset, HeapPage(k));
  }

  lemma HeapPathsDiffer(j: int, k: int)
    requires 0 <= j && HeapPage(j) < ADDRESS_LIMIT && 0 <= k && HeapPage(k) < ADDRESS_LIMIT && j != k
    ensures PathOf(HeapPage(j)) != PathOf(HeapPage(k))
  {
    HeapPageNumber(j);
    HeapPageNumber(k);
    PathsArePageNumbers(HeapPage(j), HeapPage(k));
  }

  lemma RestElsewhere(n: nat)
    requires n < HEAP_PAGES
    ensures forall k :: n + 1 <= k < HEAP_PAGES ==> Elsewhere(HeapPage(n), k)
  {
    forall k | n + 1 <= k < HEAP_PAGES
      ensures Elsewhere(HeapPage(n), k)
    {
      HeapPathsDiffer(n, k);
    }
  }

  lemma SameHeapMapping(m: Phys, m': Phys, root: int, slots: set<int>, leaves: seq<int>)
    requires HeapMapped(m, root, leaves) && SameTranslations(m, m', root, slots)
    requires forall i :: 510 <= i < 512 ==> i in slots
    ensures HeapMapped(m', root, leaves)
  {
    forall k | 0 <= k < |leaves|
      ensures Backs(Walk(m', root, PathOf(HeapPage(k))), leaves[k])
    {
      HeapPath(HeapPage(k));
      assert LeafPath(PathOf(HeapPage(k)), slots);
    }
  }

  lemma HeapAddress(a: int)
    requires HEAP_BASE <= a
    ensures a == HeapPage(LeafIndex(a)) + (a - HEAP_BASE) % 4096
    ensures a % 4096 == (a - HEAP_BASE) % 4096
    ensures a % 8 == 0 ==> a == HeapPage(LeafIndex(a)) + 8 * LeafSlot(a)
  {
  }

  /** Walking the tables for a heap word finds its leaf page. */
  lemma HeapWalk(m: Phys, root: int, slots: set<int>, leaves: seq<int>, a: int)
    requires HeapMapped(m, root, leaves) && HEAP_BASE <= a < HEAP_BASE + 4096 * |leaves|
    requires forall i :: 510 <= i < 512 ==> i in slots
    ensures LeafPath(PathOf(a), slots)
    ensures MapsTo(Walk(m, root, PathOf(a)), leaves[LeafIndex(a)])
  {
    var k := LeafIndex(a);
    HeapPath(a);
    HeapAddress(a);
    HeapPagePath(k, (a - HEAP_BASE) % 4096);
    assert Backs(Walk(m, root, PathOf(HeapPage(k))), leaves[k]);
  }

  /** Mapping the next heap page extends the heap mapping by one leaf. */
  lemma HeapMappingGrows(m: Phys, m': Phys, root: int, slots: set<int>, leaves: seq<int>,
                         current: int, page: int, e: Word)
    requires HeapMapped(m, root, leaves) && HeapPage(|leaves| + 1) < ADDRESS_LIMIT && current == HeapPage(|leaves|)
    requires forall i :: 510 <= i < 512 ==> i in slots
    requires OneTranslation(m, m', root, slots, PathOf(current), e) && Backs(e, page)
    ensures HeapMapped(m', root, leaves + [page])
  {
    var leaves' := leaves + [page];
    forall k | 0 <= k < |leaves'|
      ensures Backs(Walk(m', root, PathOf(HeapPage(k))), leaves'[k])
    {
      HeapPath(HeapPage(k));
      assert LeafPath(PathOf(HeapPage(k)), slots);
      if k < |leaves| {
        HeapPathsDiffer(k, |leaves|);
        assert Backs(Walk(m, root, PathOf(HeapPage(k))), leaves[k]);
      }
    }
  }

  /** The heap region: leaf k backs heap page k and nothing is mapped above. */
  ghost predicate Region(m: Phys, root: int, leaves: seq<int>) {
    HeapMapped(m, root, leaves) && NothingAbove(m, root, |leaves|)
  }

  lemma RegionSame(m: Phys, m': Phys, root: int, slots: set<int>, leaves: seq<int>)
    requires Region(m, root, leaves) && SameTranslations(m, m', root, slots) && forall i :: 510 <= i < 512 ==> i in slots
    ensures Region(m', root, leaves)
  {
    SameHeapMapping(m, m', root, slots, leaves);
    SameAbove(m, m', root, slots, |leaves|);
  }

  /** A write to a page that is neither a table nor free keeps tables, list and heap region. */
  lemma WriteApart(m: Phys, root: int, tables: Tables, slots: set<int>, head: int, count: int, free: seq<int>, leaves: seq<int>,
                   page: int, contents: seq<Word>)
    requires Tree(m, root, tables, slots) && AllLinked(m, root, tables, slots) && FreeList(m, head, count, free) && Region(m, root, leaves)
    requires page !in tables && page !in free && |contents| == ENTRIES && forall i :: 510 <= i < 512 ==> i in slots
    ensures var m' := m[page := contents];
      && Tree(m', root, tables, slots) && AllLinked(m', root, tables, slots) && FreeList(m', head, count, free) && Region(m', root, leaves)
  {
    var m': Phys := m[page := contents];
    NonTableWrite(m, m', root, tables, slots);
    SameLinked(m, m', root, tables, slots);
    NonFreeWrite(m, m', head, count, free);
    RegionSame(m, m', root, slots, leaves);
  }

  lemma RegionGrows(m: Phys, m': Phys, root: int, slots: set<int>, leaves: seq<int>, current: int, page: int, e: Word)
    requires Region(m, root, leaves) && HeapPage(|leaves| + 1) < ADDRESS_LIMIT && current == HeapPage(|leaves|)
    requires forall i :: 510 <= i < 512 ==> i in slots
    requires OneTranslation(m, m', root, slots, PathOf(current), e) && Backs(e, page)
    ensures Region(m', root, leaves + [page])
  {
    HeapMappingGrows(m, m', root, slots, leaves, current, page, e);
    BelowTop(|leaves| + 1);
    RestElsewhere(|leaves|);
    OtherAbove(m, m', root, slots, |leaves|, |leaves| + 1, current, e);
  }

  lemma RegionElsewhere(m: Phys, m': Phys, root: int, slots: set<int>, leaves: seq<int>, virt: int, e: Word)
    requires Region(m, root, leaves) && forall i :: 510 <= i < 512 ==> i in slots
    requires OneTranslation(m, m', root, slots, PathOf(virt), e) && forall k :: 0 <= k < HEAP_PAGES ==> Elsewhere(virt, k)
    ensures Region(m', root, leaves)
  {
    BelowTop(|leaves|);
    forall k | 0 <= k < |leaves|
      ensures PathOf(virt) != PathOf(HeapPage(k))
    {
      assert Elsewhere(virt, k);
    }
    OtherHeapMapping(m, m', root, slots, leaves, PathOf(virt));
    OtherAbove(m, m', root, slots, |leaves|, |leaves|, virt, e);
  }

  lemma PartitionLeaf(pool: set<int>, free: seq<int>, own: set<int>, leaves: seq<int>, held: set<int>, page: int)
    requires Partition(pool, free, own, leaves, held) && page in held
    ensures Partition(pool, free, own, leaves + [page], held - {page})
  {
  }

  /** Every aligned address of the first n heap pages has a word. */
  ghost predicate AllMapped(w: map<int, int>, n: int) {
    forall a :: HEAP_BASE <= a < HEAP_BASE + 4096 * n && a % 8 == 0 ==> a in w
  }

  /** Mapping some other page keeps the heap mapping. */
  lemma OtherHeapMapping(m: Phys, m': Phys, root: int, slots: set<int>, leaves: seq<int>, path: seq<int>)
    requires HeapMapped(m, root, leaves) && forall i :: 510 <= i < 512 ==> i in slots
    requires forall q :: LeafPath(q, slots) && q != path ==> Walk(m', root, q) == Walk(m, root, q)
    requires forall k :: 0 <= k < |leaves| ==> path != PathOf(HeapPage(k))
    ensures HeapMapped(m', root, leaves)
  {
    forall k | 0 <= k < |leaves|
      ensures Backs(Walk(m', root, PathOf(HeapPage(k))), leaves[k])
    {
      HeapPath(HeapPage(k));
      assert LeafPath(PathOf(HeapPage(k)), slots);
      assert Backs(Walk(m, root, PathOf(HeapPage(k))), leaves[k]);
    }
  }

  lemma {:induction false} DistinctSize(s: seq<int>)
    requires Links.Distinct(s)
    ensures |set x | x in s| == |s|
    decreases |s|
  {
    if s != [] {
      var n := |s| - 1;
      DistinctSize(s[..n]);
      assert (set x | x in s) == (set x | x in s[..n]) + {s[n]} by {
        assert s == s[..n] + [s[n]];
      }
    }
  }

  /** Right after boot the whole pool is free and nothing is mapped for the heap. */
  lemma BootState(m: Phys, head: int, count: int, root: int, free: seq<int>, tables: Tables)
    requires FreeList(m, head, count, free) && forall p :: p in free ==> p !in tables
    ensures var pool := set p | p in free;
      && Partition(pool, free, {}, [], {})
      && (forall p :: p in pool ==> PageAddr(p) && p in m)
      && tables.Keys * pool == {}
    ensures HeapMapped(m, root, []) && View(m, []) == map[]
  {
  }

  /** `Machine.Valid` stays folded in a proof until it mentions `ShowMachine`. */
  ghost predicate ShowMachine(j: int) { true }

  class Machine {
    var phys: Phys
    var freePages: int
    var freePageCount: int
    const root: int
    ghost const slots: set<int>
    ghost const pool: set<int>
    ghost var free: seq<int>
    ghost var tables: Tables
    ghost var own: set<int>
    ghost var leaves: seq<int>
    ghost var held: set<int>
    ghost var words: map<int, int>

    /** The machine after boot: the pool is what the free list holds, nothing is mapped for
        the heap, and no caller holds a page. */
    constructor (phys: Phys, freePages: int, freePageCount: int, root: int,
                 ghost slots: set<int>, ghost free: seq<int>, ghost tables: Tables)
      requires FreeList(phys, freePages, freePageCount, free) && Tree(phys, root, tables, slots) && AllLinked(phys, root, tables, slots)
      requires (forall p :: p in free ==> p !in tables) && (forall i :: 510 <= i < 512 ==> i in slots) && NothingAbove(phys, root, 0)
      ensures Valid() && leaves == [] && held == {} && own == {} && this.free == free && words == map[]
      ensures pool == (set p | p in free) && this.phys == phys && this.root == root
    {
      this.phys, this.freePages, this.freePageCount, this.root := phys, freePages, freePageCount, root;
      this.slots, this.free, this.tables := slots, free, tables;
      pool := set p | p in free;
      own, leaves, held, words := {}, [], {}, map[];
      BootState(phys, freePages, freePageCount, root, free, tables);
    }

    /** Free list, tree and page conservation. */
    ghost predicate Sound()
      reads `phys, `freePages, `freePageCount, `free, `tables, `own, `leaves, `held
    {
      && FreeList(phys, freePages, freePageCount, free)
      && Tree(phys, root, tables, slots) && AllLinked(phys, root, tables, slots)
      && Partition(pool, free, own, leaves, held)
      && (forall p :: p in pool ==> PageAddr(p) && p in phys)
      && tables.Keys * pool == own && root !in pool
    }

    method AllocPage() returns (page: int)
      requires Sound()
      modifies `freePages, `freePageCount, `free, `held
      ensures Sound()
      ensures page == 0 <==> old(free) == []
      ensures page == 0 ==> free == old(free) && held == old(held)
      ensures page != 0 ==> old(free) == [page] + free && held == old(held) + {page} && page !in old(held)
    {
      AllocMoves(phys, freePages, freePageCount, pool, free, own, leaves, held);
      var node := freePages;
      if node == 0 {
        return 0;
      }
      freePages := phys[node][0].Num();
      freePageCount := freePageCount - 1;
      free := free[1..];
      held := held + {node};
      return node;
    }

    method FreePage(page: int)
      requires Sound()
      requires page in held
      modifies `phys, `freePages, `freePageCount, `free, `held
      ensures Sound()
      ensures free == [page] + old(free) && held == old(held) - {page}
      ensures phys == old(phys)[page := old(phys)[page][0 := Pointer(old(freePages))]]
      ensures SameTranslations(old(phys), phys, root, slots)
    {
      PushFree(phys, freePages, freePageCount, free, page);
      PartitionFree(pool, free, own, leaves, held, page);
      phys := phys[page := phys[page][0 := Pointer(freePages)]];
      freePages := page;
      freePageCount := freePageCount + 1;
      free := [page] + free;
      held := held - {page};
      NonTableWrite(old(phys), phys, root, tables, slots);
      SameLinked(old(phys), phys, root, tables, slots);
    }

    method ClearPage(page: int)
      requires Sound() && page in held
      modifies `phys
      ensures Sound()
      ensures phys == old(phys)[page := ZeroPage()]
    {
      var index := 0;
      while index < ENTRIES
        invariant 0 <= index <= ENTRIES
        invariant page in phys && |phys[page]| == ENTRIES
        invariant phys == old(phys)[page := phys[page]]
        invariant forall k :: 0 <= k < index ==> phys[page][k] == ZERO
      {
        phys := phys[page := phys[page][index := ZERO]];
        index := index + 1;
      }
      assert phys[page] == ZeroPage();
      NonTableWrite(old(phys), phys, root, tables, slots);
      SameLinked(old(phys), phys, root, tables, slots);
      NonFreeWrite(old(phys), phys, freePages, freePageCount, free);
    }

    /** Write the table entry for the cleared page into its slot. */
    method InstallTable(table: int, index: int, page: int)
      requires Sound() && page in held && phys[page] == ZeroPage()
      requires table in tables && Governed(tables, table, index, slots) && !phys[table][index].present
      modifies `phys, `held, `own, `tables
      ensures Sound()
      ensures phys == Linked(old(phys), table, index, page)
      ensures held == old(held) - {page} && own == old(own) + {page}
      ensures page !in old(tables) && PageAddr(page)
      ensures tables == old(tables)[page := old(tables)[table] + [index]]
    {
      assert page in pool && page !in tables;
      PartitionTable(pool, free, own, leaves, held, page);
      LinkKeepsTree(phys, root, tables, slots, table, index, page);
      LinkLinked(phys, root, tables, slots, table, index, page);
      phys := phys[table := phys[table][index := TableEntry(page)]];
      assert phys == Linked(old(phys), table, index, page);
      tables, own, held := tables[page := tables[table] + [index]], own + {page}, held - {page};
      NonFreeWrite(old(phys), phys, freePages, freePageCount, free);
    }

    /** Allocate, clear and link a missing table. */
    method NewTable(table: int, index: int) returns (page: int)
      requires Sound()
      requires table in tables && Governed(tables, table, index, slots) && !phys[table][index].present
      modifies `phys, `freePages, `freePageCount, `free, `held, `own, `tables
      ensures Sound() && held == old(held)
      ensures page == 0 <==> old(free) == []
      ensures page == 0 ==> phys == old(phys) && tables == old(tables) && free == old(free)
      ensures page != 0 ==> old(free) == [page] + free && PageAddr(page) && page in old(phys) && page !in old(tables)
      ensures page != 0 ==> phys == Linked(old(phys), table, index, page)
      ensures page != 0 ==> tables == old(tables)[page := old(tables)[table] + [index]]
      ensures page != 0 ==> phys[table][index].Num() == page + 3
    {
      page := AllocPage();
      if page == 0 {
        return;
      }
      ClearPage(page);
      InstallTable(table, index, page);
      LinkCleared(old(phys), table, index, page);
    }

    /** Find or create the table below slot `index` of `table`; `path` continues from `table`
        through that slot, and one table fewer is missing on it for every page used. */
    method EnsureNextTable(table: int, index: int, ghost path: seq<int>) returns (ret: int, next: int)
      requires Sound()
      requires table in tables && Governed(tables, table, index, slots)
      requires IsPath(path) && |path| > 1 && path[0] == index
      modifies `phys, `freePages, `freePageCount, `free, `held, `own, `tables
      ensures Sound() && held == old(held)
      ensures Extends(old(phys), old(tables), old(free), phys, tables, free, root, slots)
      ensures ret == if old(phys[table][index].present || free != []) then 0 else -ENOMEM
      ensures ret == 0 ==> MapsTo(phys[table][index], next) && (!old(phys[table][index].present) ==> phys[table][index].Num() == next + 3)
      ensures ret == 0 ==> next in tables && tables[next] == tables[table] + [index]
      ensures ret == 0 ==> Missing(phys, next, path[1..]) - |free| == old(Missing(phys, table, path) - |free|)
      ensures ret != 0 ==> free == [] && old(Missing(phys, table, path) > |free|)
      ensures ret == 0 ==> Opened(old(phys), phys, root, slots, old(tables)[table] + [index])
    {
      NothingExtends(phys, tables, free, root, slots);
      if phys[table][index].present {
        PresentOpens(phys, root, tables, slots, table, index);
        return 0, phys[table][index].page;
      }
      var page := NewTable(table, index);
      if page == 0 {
        return -ENOMEM, 0;
      }
      LinkExtends(old(phys), root, old(tables), slots, table, index, old(free));
      LinkOpens(old(phys), root, old(tables), slots, table, index, page);
      OneLevelDown(old(phys), phys, table, page, path);
      return 0, page;
    }

    /** The lookup half of page_entry(). */
    method FindTable(path: seq<int>) returns (ret: int, pt: int)
      requires Sound() && LeafPath(path, slots)
      ensures ret == if Missing(phys, root, path) == 0 then 0 else -ENOENT
      ensures ret == 0 ==> pt == LeafTable(phys, root, path)
    {
      Resolve(phys, root, path);
      if !phys[root][path[0]].present {
        return -ENOENT, 0;
      }
      var pdpt := phys[root][path[0]].page;
      assert Governed(tables, root, path[0], slots);
      if !phys[pdpt][path[1]].present {
        return -ENOENT, 0;
      }
      var pd := phys[pdpt][path[1]].page;
      assert Governed(tables, pdpt, path[1], slots);
      if !phys[pd][path[2]].present {
        return -ENOENT, 0;
      }
      assert Governed(tables, pd, path[2], slots);
      return 0, phys[pd][path[2]].page;
    }

    /** The first two steps of the creating half of page_entry(): down to the page directory. */
    method CreateDirectory(path: seq<int>) returns (ret: int, pdpt: int, pd: int, ghost m1: Phys)
      requires Sound() && LeafPath(path, slots)
      modifies `phys, `freePages, `freePageCount, `free, `held, `own, `tables
      ensures Sound() && held == old(held)
      ensures Extends(old(phys), old(tables), old(free), phys, tables, free, root, slots)
      ensures ret == 0 || (ret == -ENOMEM && free == [] && old(Missing(phys, root, path) > |free|))
      ensures ret == 0 ==> pdpt in tables && MapsTo(phys[root][path[0]], pdpt) && MapsTo(phys[pdpt][path[1]], pd)
      ensures ret == 0 ==> pd in tables && tables[pd] == path[..2] && Governed(tables, pd, path[2], slots)
      ensures ret == 0 ==> Opened(old(phys), m1, root, slots, path[..1]) && Opened(m1, phys, root, slots, path[..2])
      ensures ret == 0 ==> Missing(phys, pd, path[2..]) - |free| == old(Missing(phys, root, path) - |free|)
    {
      ghost var m0: Phys, tables0, free0 := phys, tables, free;
      PathPrefixes(path);
      ret, pdpt := EnsureNextTable(root, path[0], path);
      m1 := phys;
      if ret != 0 {
        return ret, 0, 0, m1;
      }
      ghost var tables1, free1 := tables, free;
      ret, pd := EnsureNextTable(pdpt, path[1], path[1..]);
      ExtendsTransitive(m0, tables0, free0, m1, tables1, free1, phys, tables, free, root, slots);
    }

    /** The creating half of page_entry(). */
    method CreateTables(path: seq<int>) returns (ret: int, pt: int)
      requires Sound() && LeafPath(path, slots)
      modifies `phys, `freePages, `freePageCount, `free, `held, `own, `tables
      ensures Sound() && held == old(held)
      ensures Extends(old(phys), old(tables), old(free), phys, tables, free, root, slots)
      ensures ret == if old(Missing(phys, root, path) <= |free|) then 0 else -ENOMEM
      ensures ret != 0 ==> free == []
      ensures ret == 0 ==> Missing(phys, root, path) == 0 && pt == LeafTable(phys, root, path)
      ensures ret == 0 ==> OpenedPath(old(phys), phys, root, slots, path) && |free| == old(|free| - Missing(phys, root, path))
    {
      PathPrefixes(path);
      var pdpt, pd;
      ghost var m0: Phys, tables0, free0 := phys, tables, free;
      ghost var m1: Phys;
      ret, pdpt, pd, m1 := CreateDirectory(path);
      if ret != 0 {
        return ret, 0;
      }
      ghost var m2: Phys, tables2, free2 := phys, tables, free;
      ret, pt := EnsureNextTable(pd, path[2], path[2..]);
      ExtendsTransitive(m0, tables0, free0, m2, tables2, free2, phys, tables, free, root, slots);
      if ret == 0 {
        OpenedThrice(m0, m1, m2, phys, root, slots, path);
        Resolved(m2, tables2, free2, phys, tables, free, root, slots, pdpt, pd, pt, path);
      }
    }

    /** Store a leaf entry through its resolved slot. */
    method WriteLeaf(table: int, index: int, entry: Word, ghost path: seq<int>)
      requires Sound() && LeafPath(path, slots) && Missing(phys, root, path) == 0
      requires table == LeafTable(phys, root, path) && index == path[3] && table in tables
      modifies `phys
      ensures Sound()
      ensures OneTranslation(old(phys), phys, root, slots, path, entry)
      ensures SameMissing(old(phys), phys, root, slots)
      ensures phys == old(phys)[table := old(phys)[table][index := entry]]
    {
      LeafWriteTranslates(phys, root, tables, slots, path, entry);
      LeafTablePrefix(phys, root, tables, slots, path);
      LeafWriteLinked(phys, root, tables, slots, table, index, entry);
      LeafWriteMissing(phys, root, tables, slots, path, entry);
      phys := phys[table := phys[table][index := entry]];
      NonFreeWrite(old(phys), phys, freePages, freePageCount, free);
    }

    method MapPage(virt: int, page: int, flags: Word) returns (ret: int)
      requires Sound() && LeafPath(PathOf(virt), slots)
      requires flags.page == 0 && 0 <= page < ADDRESS_LIMIT
      modifies `phys, `freePages, `freePageCount, `free, `held, `own, `tables
      ensures Sound() && held == old(held)
      ensures OnlyTables(old(phys), old(tables), old(free), phys, tables, free)
      ensures ret == if virt % 4096 != 0 || page % 4096 != 0 then -EINVAL
                     else if old(Missing(phys, root, PathOf(virt)) > |free|) then -ENOMEM
                     else if old(Walk(phys, root, PathOf(virt)).present) then -EEXIST
                     else 0
      ensures ret == 0 ==> OneTranslation(old(phys), phys, root, slots, PathOf(virt), LeafEntry(page, flags))
      ensures ret == 0 ==> Carries(Walk(phys, root, PathOf(virt)), page, flags)
      ensures ret != 0 ==> SameTranslations(old(phys), phys, root, slots)
      ensures ret == -ENOMEM ==> free == []
      ensures ret == 0 ==> OpenedPath(old(phys), phys, root, slots, PathOf(virt)) && |free| == old(|free| - Missing(phys, root, PathOf(virt)))
    {
      if virt % 4096 != 0 || page % 4096 != 0 {
        return -EINVAL;
      }
      var table, index := 0, PathOf(virt)[3];
      ret, table := CreateTables(PathOf(virt));
      if ret != 0 {
        return;
      }
      ghost var m1: Phys := phys;
      ret := FillSlot(table, index, LeafEntry(page, flags), PathOf(virt));
      if ret == 0 {
        CreatedAndWritten(old(phys), old(tables), old(free), m1, tables, free, phys, root, slots, PathOf(virt), table, LeafEntry(page, flags));
        LeafEntryCarries(page, flags);
      }
    }

    /** The last lines of map_page(): store the entry unless the slot is taken. */
    method FillSlot(table: int, index: int, entry: Word, ghost path: seq<int>) returns (ret: int)
      requires Sound() && LeafPath(path, slots) && Missing(phys, root, path) == 0
      requires table == LeafTable(phys, root, path) && index == path[3]
      modifies `phys
      ensures Sound() && table in tables && table in old(phys)
      ensures ret == if old(Walk(phys, root, path).present) then -EEXIST else 0
      ensures ret != 0 ==> phys == old(phys)
      ensures ret == 0 ==> table in phys && phys.Keys == old(phys.Keys) && phys == old(phys)[table := phys[table]]
      ensures ret == 0 ==> OneTranslation(old(phys), phys, root, slots, path, entry) && SameMissing(old(phys), phys, root, slots)
    {
      LeafTablePrefix(phys, root, tables, slots, path);
      if phys[table][index].present {
        return -EEXIST;
      }
      WriteLeaf(table, index, entry, path);
      return 0;
    }

    method UnmapPage(virt: int) returns (ret: int)
      requires Sound() && LeafPath(PathOf(virt), slots)
      modifies `phys
      ensures Sound()
      ensures phys.Keys == old(phys.Keys) && forall p :: p in phys && p !in tables ==> phys[p] == old(phys)[p]
      ensures ret == if virt % 4096 != 0 then -EINVAL
                     else if old(Walk(phys, root, PathOf(virt)).present) then 0
                     else -ENOENT
      ensures ret == 0 ==> OneTranslation(old(phys), phys, root, slots, PathOf(virt), ZERO)
      ensures ret != 0 ==> phys == old(phys)
    {
      if virt % 4096 != 0 {
        return -EINVAL;
      }
      var table, index := 0, PathOf(virt)[3];
      ret, table := FindTable(PathOf(virt));
      if ret == 0 {
        LeafTablePrefix(phys, root, tables, slots, PathOf(virt));
      } else {
        AbsentWalk(phys, root, PathOf(virt));
      }
      if ret != 0 || !phys[table][index].present {
        return -ENOENT;
      }
      WriteLeaf(table, index, ZERO, PathOf(virt));
    }

    /** The translation of any address, including its page offset. */
    method VirtToPhys(virt: int) returns (ret: int, physical: int)
      requires Sound() && LeafPath(PathOf(virt), slots)
      ensures ret == if Walk(phys, root, PathOf(virt)).present then 0 else -ENOENT
      ensures ret == 0 ==> physical == Walk(phys, root, PathOf(virt)).page + virt % 4096
    {
      var table, index := 0, PathOf(virt)[3];
      ret, table := FindTable(PathOf(virt));
      if ret == 0 {
        LeafTablePrefix(phys, root, tables, slots, PathOf(virt));
      } else {
        AbsentWalk(phys, root, PathOf(virt));
      }
      if ret != 0 || !phys[table][index].present {
        return -ENOENT, 0;
      }
      physical := phys[table][index].page + virt % 4096;
    }

    /** The machine with its heap region: leaf k backs heap page k. */
    ghost predicate Inv()
      reads `phys, `freePages, `freePageCount, `free, `tables, `own, `leaves, `held
    {
      && Sound()
      && (forall i :: 510 <= i < 512 ==> i in slots)
      && Region(phys, root, leaves)
    }

    /** The words of the heap region, by virtual address. */
    ghost function Words(): map<int, int>
      reads `phys, `leaves
    {
      View(phys, leaves)
    }

    /** What the heap relies on: the invariant, and `words` as the contents of the region. */
    ghost predicate Valid() reads this {
      forall j {:trigger ShowMachine(j)} :: ShowMachine(j) ==> Inv() && words == Words()
    }

    /** The physical slot behind a heap word, found by walking the tables. */
    method Translate(a: int) returns (page: int, slot: int)
      requires Inv() && a in Words()
      ensures page == leaves[LeafIndex(a)] && slot == LeafSlot(a)
    {
      HeapWalk(phys, root, slots, leaves, a);
      HeapAddress(a);
      var ret, physical := VirtToPhys(a);
      page, slot := physical - a % 4096, a % 4096 / 8;
    }

    method Load(a: int) returns (x: int)
      requires Valid() && a in words
      ensures x == words[a]
    {
      assert ShowMachine(0);
      var page, slot := Translate(a);
      assert page in leaves;
      x := phys[page][slot].Num();
    }

    method Store(a: int, x: int)
      requires Valid() && a in words && 0 <= x < ADDRESS_LIMIT
      modifies `phys, `words
      ensures Valid()
      ensures words == old(words)[a := x]
    {
      assert ShowMachine(0);
      WriteWord(a, x);
      words := words[a := x];
    }

    /** A leaf page is neither free nor a table. */
    lemma LeafApart(page: int)
      requires Inv() && page in leaves
      ensures page !in free && page !in tables && page in phys && |phys[page]| == ENTRIES
      ensures forall p :: p in leaves ==> p in phys && |phys[p]| == ENTRIES
    {
    }

    /** Store a word through the leaf page behind a heap address. */
    method WriteWord(a: int, x: int)
      requires Inv() && a in Words() && 0 <= x < ADDRESS_LIMIT
      modifies `phys
      ensures Inv()
      ensures Words() == old(Words())[a := x]
    {
      var page, slot := Translate(a);
      PutWord(page, slot, a, x);
    }

    /** Store a word in a leaf page. */
    method PutWord(page: int, slot: int, ghost a: int, x: int)
      requires Inv() && a in Words() && 0 <= x < ADDRESS_LIMIT && page == leaves[LeafIndex(a)] && slot == LeafSlot(a)
      modifies `phys
      ensures Inv()
      ensures Words() == old(Words())[a := x]
    {
      LeafApart(page);
      phys := phys[page := phys[page][slot := WordOf(x)]];
      ViewStore(old(phys), phys, leaves, a, x);
      WriteApart(old(phys), root, tables, slots, freePages, freePageCount, free, leaves, page, phys[page]);
    }

    /** free_page() leaves the heap region alone. */
    method GiveBack(page: int)
      requires Inv() && page in held
      modifies `phys, `freePages, `freePageCount, `free, `held
      ensures Inv() && free == [page] + old(free) && held == old(held) - {page}
      ensures Words() == old(Words())
    {
      FreePage(page);
      RegionSame(old(phys), phys, root, slots, leaves);
      SameView(old(phys), phys, leaves);
    }

    /** Map a held page as heap page `j`; a page already mapped there makes this fail. */
    method MapLeaf(current: int, page: int, ghost j: int) returns (ret: int)
      requires Inv() && page in held
      requires 0 <= j <= |leaves| && current == HeapPage(j) && HeapPage(j + 1) < ADDRESS_LIMIT
      modifies `phys, `freePages, `freePageCount, `free, `held, `own, `tables, `leaves
      ensures Inv() && Kept(old(Words()), Words())
      ensures ret == if j < old(|leaves|) then -EEXIST else if old(MissingAt(phys, root, j) > |free|) then -ENOMEM else 0
      ensures ret == 0 ==> leaves == old(leaves) + [page] && held == old(held) - {page}
      ensures ret == 0 ==> OpenedPath(old(phys), phys, root, slots, PathOf(HeapPage(j)))
      ensures ret == 0 ==> |free| == old(|free| - MissingAt(phys, root, j))
      ensures ret != 0 ==> leaves == old(leaves) && held == old(held)
    {
      HeapPath(current);
      SlotOfPage(j);
      assert page in pool && page % 4096 == 0;
      ret := MapPage(current, page, Word(0x800, 0, 1, false));
      if ret != 0 {
        RegionSame(old(phys), phys, root, slots, leaves);
        ViewGrows(old(phys), phys, leaves, leaves);
        return;
      }
      RegionGrows(old(phys), phys, root, slots, leaves, current, page, LeafEntry(page, Word(0x800, 0, 1, false)));
      AdoptLeaf(page);
      ViewGrows(old(phys), phys, old(leaves), leaves);
    }

    /** A heap page with a leaf is mapped, with all its tables; the next one is not. */
    lemma SlotOfPage(j: int)
      requires Inv() && 0 <= j <= |leaves| && HeapPage(j + 1) < ADDRESS_LIMIT
      ensures HeapPage(j) % 4096 == 0
      ensures Walk(phys, root, PathOf(HeapPage(j))).present <==> j < |leaves|
      ensures j < |leaves| ==> MissingAt(phys, root, j) == 0
    {
      BelowTop(j);
      BelowTop(j + 1);
      if j < |leaves| {
        assert Backs(Walk(phys, root, PathOf(HeapPage(j))), leaves[j]);
        MappedMissesNothing(phys, root, PathOf(HeapPage(j)));
      } else {
        assert Absent(phys, root, j);
      }
    }

    lemma LastMissesNothing()
      requires Valid() && leaves != []
      ensures MissingAt(phys, root, |leaves| - 1) == 0
    {
      assert ShowMachine(0);
      SlotOfPage(|leaves| - 1);
    }

    /** A heap page that shares its tables with the last mapped one misses none. */
    lemma NextMissesNothing()
      requires Valid() && 0 < |leaves| < HEAP_PAGES && Shared(|leaves| - 1, |leaves|) == 3
      ensures MissingAt(phys, root, |leaves|) == 0
    {
      var k := |leaves|;
      LastMissesNothing();
      CommonIsShared(k - 1, k);
      SharedMisses(phys, root, PathOf(HeapPage(k - 1)), PathOf(HeapPage(k)));
    }

    /** The mapped page changes hands: from the caller to the heap region. */
    ghost method AdoptLeaf(page: int)
      requires Sound() && page in held && Region(phys, root, leaves + [page])
      requires forall i :: 510 <= i < 512 ==> i in slots
      modifies `leaves, `held
      ensures Inv() && leaves == old(leaves) + [page] && held == old(held) - {page}
    {
      PartitionLeaf(pool, free, own, leaves, held, page);
      leaves, held := leaves + [page], held - {page};
    }

    /** The same, seen from outside. */
    method AddLeaf(current: int, page: int, ghost j: int) returns (ret: int)
      requires Valid() && page in held
      requires 0 <= j <= |leaves| && current == HeapPage(j) && HeapPage(j + 1) < ADDRESS_LIMIT
      modifies `phys, `freePages, `freePageCount, `free, `held, `own, `tables, `leaves, `words
      ensures Valid() && Kept(old(words), words)
      ensures ret == if j < old(|leaves|) then -EEXIST else if old(MissingAt(phys, root, j) > |free|) then -ENOMEM else 0
      ensures ret == 0 ==> leaves == old(leaves) + [page] && held == old(held) - {page}
      ensures ret == 0 ==> OpenedPath(old(phys), phys, root, slots, PathOf(HeapPage(j)))
      ensures ret == 0 ==> |free| == old(|free| - MissingAt(phys, root, j))
      ensures ret != 0 ==> leaves == old(leaves) && held == old(held)
    {
      assert ShowMachine(0);
      ret := MapLeaf(current, page, j);
      words := Words();
    }

    lemma HeldIsPage(page: int)
      requires Valid() && page in held
      ensures page % 4096 == 0 && page != 0
    {
      assert ShowMachine(0);
      assert page in pool;
    }

    /** One round of map_heap_range(): back heap page `j` by a fresh page. */
    method MapHeapPage(current: int, ghost j: int) returns (ret: int)
      requires Valid()
      requires 0 <= j <= |leaves| && current == HeapPage(j) && HeapPage(j + 1) < ADDRESS_LIMIT
      modifies `phys, `freePages, `freePageCount, `free, `held, `own, `tables, `leaves, `words
      ensures Valid() && held == old(held)
      ensures Kept(old(words), words)
      ensures ret == if old(free) == [] then -ENOMEM
                     else if j < old(|leaves|) then -EEXIST
                     else if old(|free|) < 1 + old(MissingAt(phys, root, j)) then -ENOMEM
                     else 0
      ensures ret == 0 ==> |leaves| == j + 1 && leaves[..j] == old(leaves)
      ensures ret == 0 ==> OpenedPath(old(phys), phys, root, slots, PathOf(HeapPage(j)))
      ensures ret == 0 ==> |free| == old(|free|) - 1 - old(MissingAt(phys, root, j))
      ensures ret != 0 ==> leaves == old(leaves)
    {
      var page := TakePage();
      if page == 0 {
        return -ENOMEM;
      }
      ret := AddLeaf(current, page, j);
      if ret != 0 {
        HeldIsPage(page);
        var ok := ReturnPage(page);
      }
    }

    lemma HeapSlots()
      requires Valid()
      ensures forall i :: 510 <= i < 512 ==> i in slots
    {
      assert ShowMachine(0);
    }

    lemma WordsMapped()
      requires Valid()
      ensures AllMapped(words, |leaves|) && HeapPage(|leaves|) < ADDRESS_LIMIT
      ensures forall a :: a in words ==> HEAP_BASE <= a < HeapPage(|leaves|)
    {
      assert ShowMachine(0);
    }

    /** The round of map_heap_range() that maps heap page k of the n from k0 on. */
    method MapRound(current: int, ghost k0: nat, ghost k: nat, ghost n: nat, ghost m0: Phys, ghost count0: int) returns (ret: int)
      requires Valid() && k0 <= k < k0 + n && k <= |leaves| && current == HeapPage(k) && HeapPage(k + 1) < ADDRESS_LIMIT
      requires Mapping(m0, count0, phys, |free|, root, k0, k - k0)
      modifies `phys, `freePages, `freePageCount, `free, `held, `own, `tables, `leaves, `words
      ensures Valid() && held == old(held) && Kept(old(words), words)
      ensures ret == 0 ==> k == old(|leaves|) && |leaves| == k + 1 && Mapping(m0, count0, phys, |free|, root, k0, k - k0 + 1)
      ensures ret != 0 ==> leaves == old(leaves)
      ensures k < old(|leaves|) ==> ret == if old(free) == [] then -ENOMEM else -EEXIST
      ensures ret != 0 && k == old(|leaves|) ==>
        ret == -ENOMEM && PagesNeeded(m0, root, k0, n) > count0 && Largest(m0, root, k0, n, count0, k - k0)
    {
      BelowTop(k + 1);
      HeapSlots();
      ret := MapHeapPage(current, k);
      if ret == 0 {
        MappingNext(m0, count0, old(phys), old(|free|), phys, |free|, root, slots, k0, k - k0, k);
      } else if k == |leaves| {
        MappingFails(m0, count0, old(phys), old(|free|), root, k0, k - k0, n);
      }
    }

    /** The loop of map_heap_range() over n heap pages, none when `end` is not above `start`. */
    method MapPages(start: int, end: int, ghost k0: nat, ghost n: nat) returns (ret: int)
      requires Valid() && start == HeapPage(k0) && k0 <= |leaves|
      requires if n == 0 then end <= start else end == HeapPage(k0 + n) < ADDRESS_LIMIT
      modifies `phys, `freePages, `freePageCount, `free, `held, `own, `tables, `leaves, `words
      ensures Valid() && held == old(held)
      ensures Kept(old(words), words) && |leaves| >= old(|leaves|)
      ensures n == 0 ==> ret == 0 && phys == old(phys) && free == old(free) && leaves == old(leaves) && words == old(words)
      ensures n > 0 && k0 < old(|leaves|) ==> ret == (if old(free) == [] then -ENOMEM else -EEXIST) && leaves == old(leaves)
      ensures n > 0 && k0 == old(|leaves|) ==>
        && ret == (if old(PagesNeeded(phys, root, k0, n) <= |free|) then 0 else -ENOMEM)
        && Largest(old(phys), root, k0, n, old(|free|), |leaves| - k0) && (ret == 0 <==> |leaves| == k0 + n)
        && (ret == 0 ==> |free| == old(|free| - PagesNeeded(phys, root, k0, n)))
    {
      ghost var k := k0;
      var current := start;
      MappingStart(phys, |free|, root, k0);
      while current < end
        invariant Valid() && held == old(held) && Kept(old(words), words)
        invariant k0 <= k <= k0 + n && current == HeapPage(k)
        invariant k == k0 ==> phys == old(phys) && free == old(free) && leaves == old(leaves) && words == old(words)
        invariant k > k0 ==> k0 == old(|leaves|) && |leaves| == k
        invariant Mapping(old(phys), old(|free|), phys, |free|, root, k0, k - k0)
      {
        ghost var w := words;
        ret := MapRound(current, k0, k, n, old(phys), old(|free|));
        KeptTransitive(old(words), w, words);
        if ret != 0 {
          return;
        }
        current, k := current + 4096, k + 1;
      }
      MappingDone(old(phys), old(|free|), phys, |free|, root, k0, k - k0);
      return 0;
    }

    /** map_heap_range() in 64-bit arithmetic. An empty range and one that reaches the top of the
        address space map nothing and report success. Otherwise a range that begins in mapped pages
        fails, and a fresh one maps as many pages as the free pages allow, which is all of them
        exactly when they suffice for the leaves and their missing tables. */
    method MapHeapRange(start: int, bytes: int, ghost k0: nat) returns (ret: int)
      requires Valid() && start == HeapPage(k0) && k0 <= |leaves|
      requires 0 <= bytes < ADDRESS_LIMIT && bytes % 4096 == 0
      modifies `phys, `freePages, `freePageCount, `free, `held, `own, `tables, `leaves, `words
      ensures Valid() && held == old(held)
      ensures Kept(old(words), words) && AllMapped(words, |leaves|) && |leaves| >= old(|leaves|)
      ensures !(0 < bytes < ADDRESS_LIMIT - start) ==> ret == 0 && phys == old(phys) && free == old(free) && leaves == old(leaves) && words == old(words)
      ensures 0 < bytes < ADDRESS_LIMIT - start && k0 < old(|leaves|) ==>
        ret == (if old(free) == [] then -ENOMEM else -EEXIST) && leaves == old(leaves)
      ensures 0 < bytes < ADDRESS_LIMIT - start && k0 == old(|leaves|) ==>
        && ret == (if old(PagesNeeded(phys, root, k0, bytes / 4096) <= |free|) then 0 else -ENOMEM)
        && Largest(old(phys), root, k0, bytes / 4096, old(|free|), |leaves| - k0) && (ret == 0 <==> HeapPage(|leaves|) == start + bytes)
        && (ret == 0 ==> |free| == old(|free| - PagesNeeded(phys, root, k0, bytes / 4096)))
    {
      WordsMapped();
      BelowTop(k0);
      WrappedEnd(start, bytes);
      var end := (start + bytes) % ADDRESS_LIMIT;
      ret := MapPages(start, end, k0, if end <= start then 0 else bytes / 4096);
      WordsMapped();
    }

    // ----- pages used by callers -----

    method TakePage() returns (page: int)
      requires Valid()
      modifies `freePages, `freePageCount, `free, `held
      ensures Valid()
      ensures page == 0 <==> old(free) == []
      ensures page == 0 ==> free == old(free) && held == old(held)
      ensures page != 0 ==> old(free) == [page] + free && held == old(held) + {page} && page !in old(held)
    {
      assert ShowMachine(0);
      page := AllocPage();
    }

    /** free_page(): a page that is not aligned, or NULL, is where the source panics. */
    method ReturnPage(page: int) returns (ok: bool)
      requires Valid() && (page in held || page % 4096 != 0 || page == 0)
      modifies `phys, `freePages, `freePageCount, `free, `held
      ensures Valid() && (ok <==> page % 4096 == 0 && page != 0)
      ensures ok ==> free == [page] + old(free) && held == old(held) - {page}
      ensures !ok ==> phys == old(phys) && free == old(free) && held == old(held)
    {
      if page % 4096 != 0 || page == 0 {
        return false;
      }
      assert ShowMachine(0);
      GiveBack(page);
      return true;
    }

    /** map_page() of a caller's page outside the mapped heap: no heap word changes, and the
        page stays the caller's. */
    method MapCallerPage(virt: int, page: int, flags: Word) returns (ret: int)
      requires Valid() && page in held && flags.page == 0 && LeafPath(PathOf(virt), slots)
      requires forall k :: 0 <= k < HEAP_PAGES ==> Elsewhere(virt, k)
      modifies `phys, `freePages, `freePageCount, `free, `held, `own, `tables
      ensures Valid() && held == old(held)
      ensures ret == if virt % 4096 != 0 then -EINVAL
                     else if old(Missing(phys, root, PathOf(virt)) > |free|) then -ENOMEM
                     else if old(Walk(phys, root, PathOf(virt)).present) then -EEXIST
                     else 0
      ensures ret == 0 ==> OneTranslation(old(phys), phys, root, slots, PathOf(virt), LeafEntry(page, flags))
      ensures ret == 0 ==> MapsTo(Walk(phys, root, PathOf(virt)), page) && Carries(Walk(phys, root, PathOf(virt)), page, flags)
      ensures ret != 0 ==> SameTranslations(old(phys), phys, root, slots)
    {
      assert ShowMachine(0);
      ret := MapPage(virt, page, flags);
      SameView(old(phys), phys, leaves);
      if ret == 0 {
        RegionElsewhere(old(phys), phys, root, slots, leaves, virt, LeafEntry(page, flags));
      } else {
        RegionSame(old(phys), phys, root, slots, leaves);
      }
    }

    /** unmap_page() of an address outside the heap: no heap word changes, and no page changes
        hands. */
    method UnmapCallerPage(virt: int) returns (ret: int)
      requires Valid() && LeafPath(PathOf(virt), slots)
      requires forall k :: 0 <= k < HEAP_PAGES ==> Elsewhere(virt, k)
      modifies `phys
      ensures Valid()
      ensures ret == if virt % 4096 != 0 then -EINVAL
                     else if old(Walk(phys, root, PathOf(virt)).present) then 0
                     else -ENOENT
      ensures ret == 0 ==> OneTranslation(old(phys), phys, root, slots, PathOf(virt), ZERO)
      ensures ret != 0 ==> phys == old(phys)
    {
      assert ShowMachine(0);
      ret := UnmapPage(virt);
      SameView(old(phys), phys, leaves);
      if ret == 0 {
        RegionElsewhere(old(phys), phys, root, slots, leaves, virt, ZERO);
      }
    }

    /** virt_to_phys() of an address in a page that map_page() has just mapped. */
    method MapAndTranslate(virt: int, page: int, flags: Word, a: int) returns (mapped: int, ret: int, physical: int)
      requires Sound() && LeafPath(PathOf(virt), slots) && flags.page == 0
      requires 0 <= page < 0x10_0000_0000_0000 && PageNumber(a) == PageNumber(virt)
      modifies `phys, `freePages, `freePageCount, `free, `held, `own, `tables
      ensures Sound() && held == old(held)
      ensures mapped == 0 ==> ret == 0 && physical == page + a % 4096
    {
      ret, physical := -EINVAL, 0;
      PathsArePageNumbers(a, virt);
      mapped := MapPage(virt, page, flags);
      if mapped == 0 {
        ret, physical := VirtToPhys(a);
      }
    }

    /** Mapping a caller's page and unmapping it again restores every translation. */
    method MapAndUnmap(virt: int, page: int, flags: Word) returns (mapped: int, unmapped: int)
      requires Valid() && page in held && flags.page == 0 && LeafPath(PathOf(virt), slots)
      requires forall k :: 0 <= k < HEAP_PAGES ==> Elsewhere(virt, k)
      modifies `phys, `freePages, `freePageCount, `free, `held, `own, `tables
      ensures Valid() && held == old(held)
      ensures mapped == 0 <==> virt % 4096 == 0 && old(Missing(phys, root, PathOf(virt)) <= |free|) && !old(Walk(phys, root, PathOf(virt)).present)
      ensures mapped == 0 ==> unmapped == 0 && forall q :: LeafPath(q, slots) ==> Walk(phys, root, q).present == old(Walk(phys, root, q).present)
      ensures mapped == 0 ==> forall q :: LeafPath(q, slots) && q != PathOf(virt) ==> Walk(phys, root, q) == old(Walk(phys, root, q))
    {
      unmapped := 0;
      mapped := MapCallerPage(virt, page, flags);
      if mapped == 0 {
        unmapped := UnmapCallerPage(virt);
      }
    }

    /** Page conservation, counted: every pool page is free, a table that some entry links, a
        heap leaf that the tables map, or held. */
    lemma PagesAddUp()
      requires Valid()
      ensures Partition(pool, free, own, leaves, held)
      ensures forall p :: p in own ==> p in tables && HasParent(phys, tables, slots, p)
      ensures forall k :: 0 <= k < |leaves| ==> Backs(Walk(phys, root, PathOf(HeapPage(k))), leaves[k])
      ensures |pool| == freePageCount + |own| + |leaves| + |held|
    {
      assert ShowMachine(0) && ShowLinks(0);
      DistinctSize(free);
      DistinctSize(leaves);
      var f, l := set x | x in free, set x | x in leaves;
      assert f !! own && (f + own) !! l && (f + own + l) !! held;
    }
  }
}
