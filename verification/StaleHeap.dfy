/** A heap growth that fails half-way is reachable: five free pages and no tables. The page of
    heap_init() takes four of them; of the two pages for the next request the first takes the
    fifth, the second finds none. */
module StaleHeap {
  import opened Errno
  import opened HeapBlocks
  import opened PageTree
  import VM = VirtualMemory
  import Runs = HeapRuns
  import KernelHeap

  /** The first heap page takes itself and three tables. */
  lemma FirstPage(m: Phys, root: int)
    requires VM.MissingAt(m, root, 0) == 3
    ensures VM.PagesNeeded(m, root, 0, 1) == 4
  {
    assert VM.PagesNeeded(m, root, 0, 0) == 0;
  }

  /** With its tables there, the second takes only itself; the third one more at least. */
  lemma NextPages(m: Phys, root: int)
    requires VM.MissingAt(m, root, 1) == 0
    ensures VM.PagesNeeded(m, root, 1, 1) == 1 && VM.PagesNeeded(m, root, 1, 2) >= 2
  {
    assert VM.PagesNeeded(m, root, 1, 0) == 0;
    assert VM.Shared(1, 2) == 3;
  }

  /** A free page that points to the next. */
  function FreePage(next: int): (page: seq<Word>)
    ensures |page| == ENTRIES && page[0] == Pointer(next)
  {
    ZeroPage()[0 := Pointer(next)]
  }

  const ROOT := 0x1000
  const FREE := [0x2000, 0x3000, 0x4000, 0x5000, 0x6000]

  /** An empty root table and five free pages. */
  function Memory(): Phys {
    map[0x1000 := ZeroPage(), 0x2000 := FreePage(0x3000), 0x3000 := FreePage(0x4000), 0x4000 := FreePage(0x5000),
        0x5000 := FreePage(0x6000), 0x6000 := FreePage(0)]
  }

  lemma MemoryIsSound()
    ensures VM.FreeList(Memory(), 0x2000, 5, FREE)
    ensures Tree(Memory(), ROOT, map[ROOT := []], {510, 511}) && AllLinked(Memory(), ROOT, map[ROOT := []], {510, 511})
    ensures VM.NothingAbove(Memory(), ROOT, 0) && VM.MissingAt(Memory(), ROOT, 0) == 3
  {
    forall k | 0 <= k < VM.HEAP_PAGES
      ensures VM.Absent(Memory(), ROOT, k)
    {
      NothingThere(PathOf(VM.HeapPage(k)));
    }
    NothingThere(PathOf(VM.HeapPage(0)));
  }

  lemma NothingThere(path: seq<int>)
    requires IsPath(path) && |path| == 4
    ensures Missing(Memory(), ROOT, path) == 3 && Walk(Memory(), ROOT, path) == ZERO
  {
    assert Slot(Memory(), ROOT, path[0]) == ZERO;
  }

  lemma GrowthSizes()
    ensures GrowBytes(4064) == 4096 && GrowBytes(8000) == 8192
  {
  }

  method EmptyHeap() returns (heap: KernelHeap.Heap)
    ensures fresh(heap) && fresh(heap.vm) && heap.Valid() && heap.blocks == [] && heap.live == map[] && heap.heapEnd == VM.HEAP_BASE
    ensures heap.vm.leaves == [] && |heap.vm.free| == 5 && heap.vm.phys == Memory() && heap.vm.root == ROOT
  {
    MemoryIsSound();
    var vm := new VM.Machine(Memory(), 0x2000, 5, ROOT, {510, 511}, FREE, map[ROOT := []]);
    heap := new KernelHeap.Heap(vm);
  }

  lemma OneFreeBlock()
    ensures Grow([], VM.HEAP_BASE, 4096) == [Block(VM.HEAP_BASE, 4064, true)]
    ensures Runs.Inv(Runs.Heap([Block(VM.HEAP_BASE, 4064, true)], VM.HEAP_BASE + 4096, map[]))
  {
  }

  /** After heap_init(): one free block in one page, and one free page left. */
  method BootedHeap() returns (heap: KernelHeap.Heap)
    ensures fresh(heap) && fresh(heap.vm) && heap.Valid() && heap.live == map[]
    ensures heap.blocks == [Block(VM.HEAP_BASE, 4064, true)] && heap.heapEnd == VM.HEAP_BASE + 4096
    ensures |heap.vm.leaves| == 1 && |heap.vm.free| == 1
  {
    GrowthSizes();
    MemoryIsSound();
    FirstPage(Memory(), ROOT);
    OneFreeBlock();
    heap := EmptyHeap();
    var ret, lost := heap.HeapExtend(4064);
    assert KernelHeap.ShowGrowth(0);
  }

  /** The growth for a request of 8000 bytes reports -ENOMEM and leaves one page mapped past the end
      of the heap. */
  method HalfFailedGrowth() returns (heap: KernelHeap.Heap, ret: int)
    ensures fresh(heap) && fresh(heap.vm) && heap.Valid() && heap.Stale() && ret == -ENOMEM
    ensures heap.blocks == [Block(VM.HEAP_BASE, 4064, true)] && heap.heapEnd == VM.HEAP_BASE + 4096 && |heap.vm.leaves| == 2
  {
    GrowthSizes();
    heap := BootedHeap();
    heap.vm.NextMissesNothing();
    NextPages(heap.vm.phys, heap.vm.root);
    ghost var before := heap.Snapshot();
    var lost;
    ret, lost := heap.HeapExtend(8000);
    assert KernelHeap.ShowGrowth(0) && VM.ShowLargest(0);
    assert heap.Snapshot() == before;
  }

  /** From then on no request above the one free block is served. */
  method NothingServed(size: int) returns (ptr: int, lost: bool)
    requires 4064 < size <= LIMIT - 16
    ensures !lost ==> ptr == 0
    ensures lost <==> !Fits(VM.HEAP_BASE + 4096, GrowBytes(RoundUp(size, ALIGNMENT)))
  {
    var heap, ret := HalfFailedGrowth();
    RequestRounds(size);
    assert FirstFit(heap.blocks, RoundUp(size, ALIGNMENT)) == 1;
    ghost var got;
    ptr, lost, got := heap.Kmalloc(size);
  }
}
