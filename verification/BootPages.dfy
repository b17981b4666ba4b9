/** Building the free list at boot: mm/page_alloc.c and arch/x86/mm/page_table_boot.c.

    Physical memory is read while it is being written: the memory map and the active page
    tables are looked up in the same memory whose free pages receive list links. */
module BootPages {
  import opened Division
  import opened PageTree
  import opened VirtualMemory

  const MAX_RESERVED_TABLE_PAGES := 4096
  const CONVENTIONAL := 7
  const DESCRIPTOR_BYTES := 40
  const BOOT_INFO_BYTES := 80

  /** What the allocator needs from boot_info_t and the linker script. */
  datatype BootInfo = BootInfo(address: int, memoryMap: int, memoryMapSize: int, descriptorSize: int,
                               kernelStart: int, kernelEnd: int)

  datatype Descriptor = Descriptor(kind: int, start: int, pages: int) {
    function End(): int { start + pages * 4096 }

    /** `p` is a whole aligned page of this conventional range. */
    predicate Covers(p: int) {
      kind == CONVENTIONAL && p % 4096 == 0 && start <= p && p + 4096 <= End()
    }
  }

  /** The 64-bit word at physical address `a`. */
  function WordAt(m: Phys, a: int): int {
    Slot(m, a - a % 4096, a % 4096 / 8).Num()
  }

  /** Words are eight bytes apart, 512 to a page. */
  lemma WordAtIs(m: Phys, page: int, slot: nat)
    requires page % 4096 == 0 && slot < 512
    ensures WordAt(m, page + 8 * slot) == Slot(m, page, slot).Num()
  {
    Unique(page + 8 * slot, 4096, page / 4096, 8 * slot);
  }

  function DescriptorAt(m: Phys, a: int): Descriptor {
    Descriptor(WordAt(m, a) % 0x1_0000_0000, WordAt(m, a + 8), WordAt(m, a + 24))
  }

  /** A memory descriptor as boot_info.h lays it out: type and padding, physical start, virtual
      start, number of pages, attributes. */
  function Layout(d: Descriptor, padding: int, virtual: int, attributes: int): seq<int> {
    [d.kind + 0x1_0000_0000 * padding, d.start, virtual, d.pages, attributes]
  }

  /** The words of `ws` are stored from `a` on. */
  ghost predicate StoredAt(m: Phys, a: int, ws: seq<int>) {
    forall i :: 0 <= i < |ws| ==> WordAt(m, a + 8 * i) == ws[i]
  }

  /** What the firmware stored is what the scan reads. */
  lemma DescriptorReadsBack(m: Phys, a: int, d: Descriptor, padding: int, virtual: int, attributes: int)
    requires 0 <= d.kind < 0x1_0000_0000 && StoredAt(m, a, Layout(d, padding, virtual, attributes))
    ensures DescriptorAt(m, a) == d
  {
    var ws := Layout(d, padding, virtual, attributes);
    assert WordAt(m, a + 8 * 0) == ws[0] && WordAt(m, a + 8 * 1) == ws[1] && WordAt(m, a + 8 * 3) == ws[3];
    Unique(ws[0], 0x1_0000_0000, padding, d.kind);
  }

  /** The descriptors the scan visits from `offset` on. */
  function Descriptors(m: Phys, info: BootInfo, offset: int): seq<Descriptor>
    decreases info.memoryMapSize - offset
  {
    if info.descriptorSize <= 0 || offset + DESCRIPTOR_BYTES > info.memoryMapSize then []
    else [DescriptorAt(m, info.memoryMap + offset)] + Descriptors(m, info, offset + info.descriptorSize)
  }

  /** The scan visits every whole descriptor of the map, one descriptor size after the other. */
  lemma {:induction false} DescriptorIndex(m: Phys, info: BootInfo, offset: int, i: nat, at: int)
    requires info.descriptorSize > 0 && at == offset + i * info.descriptorSize
    ensures offset <= at && (i < |Descriptors(m, info, offset)| <==> at + DESCRIPTOR_BYTES <= info.memoryMapSize)
    ensures i < |Descriptors(m, info, offset)| ==> Descriptors(m, info, offset)[i] == DescriptorAt(m, info.memoryMap + at)
    decreases i
  {
    if i > 0 {
      OneStepOn(i, info.descriptorSize);
      DescriptorIndex(m, info, offset + info.descriptorSize, i - 1, at);
    }
  }

  lemma OneStepOn(i: int, d: int)
    ensures i * d == d + (i - 1) * d
  {
  }

  /** A range covers a page exactly when it is conventional memory and every byte of the aligned page
      lies in it. */
  lemma CoversExactly(d: Descriptor, p: int)
    ensures d.Covers(p) <==> d.kind == 7 && p % 4096 == 0 && forall a :: Within(a, p, p + 4096) ==> Within(a, d.start, d.End())
  {
    if forall a :: Within(a, p, p + 4096) ==> Within(a, d.start, d.End()) {
      assert Within(p, p, p + 4096) && Within(p + 4095, p, p + 4096);
      assert Within(p, d.start, d.End()) && Within(p + 4095, d.start, d.End());
    }
  }

  function AlignDown(a: int): int { a - a % 4096 }
  function AlignUp(a: int): int { AlignDown(a + 4095) }

  /** [page, page + 4096) meets the pages of [start, end). */
  predicate Overlaps(page: int, start: int, end: int) {
    page < AlignUp(end) && AlignDown(start) < page + 4096
  }

  predicate Large(e: Word) { e.low / 64 % 2 == 1 }
  predicate Directory(e: Word) { e.present && !Large(e) }

  /** X86_PAGE_SIZE_FLAG is bit 7 of an entry. */
  lemma LargeIsBit7(e: Word)
    requires e.Valid()
    ensures Large(e) <==> e.Num() / 0x80 % 2 == 1
  {
    var r := 2 * e.low + if e.present then 1 else 0;
    var q := e.high * 0x100_0000_0000 + e.page / 4096;
    assert e.Num() == q * 4096 + r && 0 <= r < 4096;
    assert r / 0x80 == e.low / 64;
    Unique(e.Num(), 0x80, q * 32 + r / 0x80, r % 0x80);
    Unique(q * 32 + r / 0x80, 2, q * 16 + r / 0x80 / 2, r / 0x80 % 2);
  }

  // Which pages hold a table reachable from `root`, one predicate per level.

  ghost predicate InDirectory(m: Phys, pd: int, p: int) {
    exists k :: 0 <= k < ENTRIES && Directory(Slot(m, pd, k)) && Slot(m, pd, k).page == p
  }

  ghost predicate UnderEntry(m: Phys, e: Word, p: int) {
    Directory(e) && (e.page == p || InDirectory(m, e.page, p))
  }

  ghost predicate InPointers(m: Phys, pdpt: int, p: int) {
    exists j :: 0 <= j < ENTRIES && UnderEntry(m, Slot(m, pdpt, j), p)
  }

  ghost predicate UnderRoot(m: Phys, e: Word, p: int) {
    e.present && (e.page == p || InPointers(m, e.page, p))
  }

  ghost predicate IsTablePage(m: Phys, root: int, p: int) {
    p == root || exists i :: 0 <= i < ENTRIES && UnderRoot(m, Slot(m, root, i), p)
  }

  /** More table pages than the array holds. */
  ghost predicate TooManyTables(m: Phys, root: int) {
    exists s: seq<int> :: |s| > MAX_RESERVED_TABLE_PAGES && Links.Distinct(s) && forall x :: x in s ==> IsTablePage(m, root, x)
  }

  /** Pages the allocator must not hand out. */
  ghost predicate Reserved(m: Phys, root: int, info: BootInfo, p: int) {
    InReservedRange(info, p) || IsTablePage(m, root, p)
  }

  /** The page meets the kernel image, boot_info or the memory map. */
  predicate InReservedRange(info: BootInfo, p: int) {
    || Overlaps(p, info.kernelStart, info.kernelEnd)
    || Overlaps(p, info.address, info.address + BOOT_INFO_BYTES)
    || Overlaps(p, info.memoryMap, info.memoryMap + info.memoryMapSize)
  }

  predicate Within(a: int, start: int, end: int) { start <= a < end }

  /** Byte `a` belongs to the kernel image, boot_info or the memory map. */
  predicate InUse(info: BootInfo, a: int) {
    || Within(a, info.kernelStart, info.kernelEnd)
    || Within(a, info.address, info.address + BOOT_INFO_BYTES)
    || Within(a, info.memoryMap, info.memoryMap + info.memoryMapSize)
  }

  /** A page overlaps a range that is not empty exactly when it holds one of its bytes. */
  lemma OverlapsExactly(p: int, start: int, end: int)
    requires p % 4096 == 0 && start < end
    ensures Overlaps(p, start, end) <==> exists a :: Within(a, start, end) && Within(a, p, p + 4096)
  {
    PageOrder(p, start, end);
    if Overlaps(p, start, end) {
      var a := if p < start then start else p;
      assert Within(a, start, end) && Within(a, p, p + 4096);
    }
  }

  /** Comparing with the rounded ends of a range. */
  lemma PageOrder(p: int, start: int, end: int)
    requires p % 4096 == 0
    ensures p < AlignUp(end) <==> p < end
    ensures AlignDown(start) < p + 4096 <==> start < p + 4096
  {
  }

  /** A page is reserved for its bytes exactly when one of them is in use, provided that the kernel
      and the map are not empty; an empty range can only reserve more. */
  lemma ReservedExactly(info: BootInfo, p: int)
    requires p % 4096 == 0
    ensures (exists a :: Within(a, p, p + 4096) && InUse(info, a)) ==> InReservedRange(info, p)
    ensures info.kernelStart < info.kernelEnd && info.memoryMapSize > 0 && InReservedRange(info, p) ==>
      exists a :: Within(a, p, p + 4096) && InUse(info, a)
  {
    if info.kernelStart < info.kernelEnd {
      OverlapsExactly(p, info.kernelStart, info.kernelEnd);
    }
    OverlapsExactly(p, info.address, info.address + BOOT_INFO_BYTES);
    if info.memoryMapSize > 0 {
      OverlapsExactly(p, info.memoryMap, info.memoryMap + info.memoryMapSize);
    }
    if info.kernelStart < info.kernelEnd && Overlaps(p, info.kernelStart, info.kernelEnd) {
      ByteInUse(info, p, info.kernelStart, info.kernelEnd);
    } else if Overlaps(p, info.address, info.address + BOOT_INFO_BYTES) {
      ByteInUse(info, p, info.address, info.address + BOOT_INFO_BYTES);
    } else if info.memoryMapSize > 0 && InReservedRange(info, p) && info.kernelStart < info.kernelEnd {
      ByteInUse(info, p, info.memoryMap, info.memoryMap + info.memoryMapSize);
    }
  }

  lemma ByteInUse(info: BootInfo, p: int, start: int, end: int)
    requires p % 4096 == 0 && start < end && Overlaps(p, start, end) && forall a :: Within(a, start, end) ==> InUse(info, a)
    ensures exists a :: Within(a, p, p + 4096) && InUse(info, a)
  {
    OverlapsExactly(p, start, end);
    var a :| Within(a, start, end) && Within(a, p, p + 4096);
    assert InUse(info, a);
  }

  /** Memory maps the allocator is built for: aligned descriptors inside the address space,
      conventional ranges that are disjoint and lie in memory. */
  ghost predicate GoodMap(m: Phys, info: BootInfo) {
    var ds := Descriptors(m, info, 0);
    && info.descriptorSize > 0 && info.descriptorSize % 8 == 0 && info.memoryMap % 8 == 0
    && (forall i :: 0 <= i < |ds| ==> GoodRange(m, ds[i]))
    && (forall i, j :: 0 <= i < j < |ds| ==> DisjointRanges(ds[i], ds[j]))
  }

  predicate ShowMap(k: int) { true }

  /** GoodMap, kept folded. */
  ghost predicate MapOk(m: Phys, info: BootInfo) {
    info.descriptorSize > 0 && forall k {:trigger ShowMap(k)} :: ShowMap(k) ==> GoodMap(m, info)
  }

  ghost predicate GoodRange(m: Phys, d: Descriptor) {
    && 0 <= d.start && 0 <= d.pages
    && forall p :: d.Covers(p) ==> Usable(p) && p in m
  }

  predicate DisjointRanges(d: Descriptor, e: Descriptor) {
    d.kind == CONVENTIONAL && e.kind == CONVENTIONAL ==> d.End() <= e.start || e.End() <= d.start
  }

  /** The pages the free list must consist of. */
  ghost predicate Eligible(m: Phys, root: int, info: BootInfo, ds: seq<Descriptor>, p: int) {
    !Reserved(m, root, info, p) && CoveredBy(ds, p)
  }

  predicate ShowListed(k: int) { true }

  /** The list holds exactly the eligible pages of the descriptors seen; kept folded. */
  ghost predicate ListsEligible(free: seq<int>, m: Phys, root: int, info: BootInfo, ds: seq<Descriptor>) {
    forall k {:trigger ShowListed(k)} :: ShowListed(k) ==> forall p :: p in free <==> Eligible(m, root, info, ds, p)
  }

  ghost predicate CoveredBy(ds: seq<Descriptor>, p: int) {
    exists i :: 0 <= i < |ds| && ds[i].Covers(p)
  }

  /** Memory agrees with `boot` outside the pages of `free`. */
  ghost predicate AgreesOutside(m: Phys, boot: Phys, free: seq<int>) {
    && m.Keys == boot.Keys
    && (forall p :: p in boot && p !in free ==> m[p] == boot[p])
    && (forall p :: p in boot ==> OnlyFirst(m[p], boot[p]))
  }

  /** Two pages that differ in word 0 at most. */
  ghost predicate OnlyFirst(s: seq<Word>, t: seq<Word>) {
    |s| == |t| && forall k :: 0 < k < |t| ==> s[k] == t[k]
  }

  /** The scan reads the descriptors as they were at boot. */
  lemma DescriptorUnchanged(m: Phys, boot: Phys, root: int, info: BootInfo, free: seq<int>, offset: int)
    requires AgreesOutside(m, boot, free)
    requires forall p :: p in free ==> !Reserved(boot, root, info, p)
    requires 0 <= offset && offset + DESCRIPTOR_BYTES <= info.memoryMapSize
    ensures DescriptorAt(m, info.memoryMap + offset) == DescriptorAt(boot, info.memoryMap + offset)
  {
  }

  predicate ShowScan(k: int) { true }

  /** The descriptors before `offset` are `done`; kept folded. */
  ghost predicate Scanned(m: Phys, info: BootInfo, done: seq<Descriptor>, offset: int) {
    forall k {:trigger ShowScan(k)} :: ShowScan(k) ==> Descriptors(m, info, 0) == done + Descriptors(m, info, offset)
  }

  lemma ScannedNext(m: Phys, info: BootInfo, done: seq<Descriptor>, offset: int)
    requires info.descriptorSize > 0 && offset + DESCRIPTOR_BYTES <= info.memoryMapSize && Scanned(m, info, done, offset)
    ensures var d := DescriptorAt(m, info.memoryMap + offset);
            && |done| < |Descriptors(m, info, 0)| && Descriptors(m, info, 0)[|done|] == d && Descriptors(m, info, 0)[..|done|] == done
            && Scanned(m, info, done + [d], offset + info.descriptorSize)
  {
    assert ShowScan(0);
    var d := DescriptorAt(m, info.memoryMap + offset);
    assert Descriptors(m, info, 0) == (done + [d]) + Descriptors(m, info, offset + info.descriptorSize);
  }

  lemma ScannedAll(m: Phys, info: BootInfo, done: seq<Descriptor>, offset: int)
    requires offset + DESCRIPTOR_BYTES > info.memoryMapSize && Scanned(m, info, done, offset)
    ensures done == Descriptors(m, info, 0)
  {
    assert ShowScan(0);
  }

  lemma CoveredAppend(ds: seq<Descriptor>, d: Descriptor, p: int)
    ensures CoveredBy(ds + [d], p) <==> CoveredBy(ds, p) || d.Covers(p)
  {
    var ds' := ds + [d];
    assert ds'[|ds|] == d;
    if CoveredBy(ds, p) {
      var i :| 0 <= i < |ds| && ds[i].Covers(p);
      assert ds'[i].Covers(p);
    }
  }

  predicate ShowSwept(k: int) { true }

  /** The pages of the range above `page` were considered: the list is what it was plus the
      unreserved ones. Kept folded. */
  ghost predicate Swept(free: seq<int>, was: seq<int>, m: Phys, root: int, info: BootInfo, d: Descriptor, page: int) {
    forall k {:trigger ShowSwept(k)} :: ShowSwept(k) ==>
      forall p :: p in free <==> p in was || (d.Covers(p) && p > page && !Reserved(m, root, info, p))
  }

  predicate ShowApart(k: int) { true }

  /** Nothing listed lies in the range; kept folded. */
  ghost predicate Apart(free: seq<int>, d: Descriptor) {
    forall k {:trigger ShowApart(k)} :: ShowApart(k) ==> forall p :: p in free ==> !d.Covers(p)
  }

  lemma SweepStart(free: seq<int>, m: Phys, root: int, info: BootInfo, d: Descriptor)
    requires d.kind == CONVENTIONAL && AlignUp(d.start) <= AlignDown(d.End() - 4096)
    ensures Swept(free, free, m, root, info, d, AlignDown(d.End() - 4096)) && AlignDown(d.End() - 4096) % 4096 == 0
  {
    forall p
      ensures !(d.Covers(p) && p > AlignDown(d.End() - 4096))
    {
      if p % 4096 == 0 {
        AlignedBounds(p, d.start, d.End() - 4096);
      }
    }
  }

  /** One page down the range, whose first page is no lower than the first whole page. */
  lemma SweepStep(free: seq<int>, free': seq<int>, was: seq<int>, m: Phys, root: int, info: BootInfo, d: Descriptor, page: int)
    requires Swept(free, was, m, root, info, d, page) && page % 4096 == 0 && d.Covers(page)
    requires free' == if Reserved(m, root, info, page) then free else [page] + free
    ensures Swept(free', was, m, root, info, d, page - 4096)
    ensures (page - 4096) % 4096 == 0 && (page != AlignUp(d.start) ==> AlignUp(d.start) <= page - 4096)
  {
    assert ShowSwept(0);
    AlignedBounds(page, d.start, d.End());
    NoPageBetween(AlignUp(d.start), page);
    forall p
      ensures p in free' <==> p in was || (d.Covers(p) && p > page - 4096 && !Reserved(m, root, info, p))
    {
      if p % 4096 == 0 {
        NoPageBetween(p, page);
      }
    }
  }

  /** A page between the first and the last whole page is covered, usable and, while only pages
      above it were considered, not listed. */
  lemma SweepFresh(free: seq<int>, was: seq<int>, m: Phys, root: int, info: BootInfo, d: Descriptor, page: int)
    requires Swept(free, was, m, root, info, d, page) && GoodRange(m, d) && Apart(was, d) && d.kind == CONVENTIONAL
    requires page % 4096 == 0 && AlignUp(d.start) <= page <= AlignDown(d.End() - 4096)
    ensures d.Covers(page) && Usable(page) && page in m && page !in free
  {
    assert ShowSwept(0) && ShowApart(0);
    AlignedBounds(page, d.start, d.End() - 4096);
  }

  /** The pages a range covers run from its first to its last whole page. */
  lemma WholePages(d: Descriptor)
    requires d.kind == CONVENTIONAL
    ensures AlignUp(d.start) + 4096 > d.End() ==> forall p :: !d.Covers(p)
    ensures AlignUp(d.start) + 4096 <= d.End() ==>
              var first, last := AlignUp(d.start), AlignDown(d.End() - 4096);
              && first % 4096 == 0 && last % 4096 == 0 && first <= last
              && forall p :: d.Covers(p) <==> p % 4096 == 0 && first <= p <= last
  {
    forall p
      ensures d.Covers(p) <==> p % 4096 == 0 && AlignUp(d.start) <= p <= AlignDown(d.End() - 4096)
    {
      if p % 4096 == 0 {
        AlignedBounds(p, d.start, d.End() - 4096);
      }
    }
    AlignedBounds(AlignUp(d.start), d.start, d.End() - 4096);
  }

  lemma NoPageBetween(p: int, q: int)
    requires p % 4096 == 0 && q % 4096 == 0
    ensures p > q - 4096 ==> p >= q
    ensures p < q ==> p <= q - 4096
  {
  }

  lemma AlignedBounds(p: int, a: int, b: int)
    requires p % 4096 == 0
    ensures a <= p <==> AlignUp(a) <= p
    ensures p <= b <==> p <= AlignDown(b)
    ensures AlignUp(a) % 4096 == 0 && AlignDown(b) % 4096 == 0
  {
  }

  /** Linking a page that still is as it was at boot disturbs no other page. */
  lemma AgreesPush(m: Phys, boot: Phys, free: seq<int>, page: int, head: int)
    requires AgreesOutside(m, boot, free) && Pages(boot) && page in boot && page !in free
    ensures |m[page]| == ENTRIES && AgreesOutside(m[page := m[page][0 := Pointer(head)]], boot, [page] + free)
  {
  }

  /** A range later in the map shares no page with the ranges before it. */
  lemma ScanStep(m: Phys, root: int, info: BootInfo, ds: seq<Descriptor>, n: nat)
    requires n < |ds| && forall i, j :: 0 <= i < j < |ds| ==> DisjointRanges(ds[i], ds[j])
    ensures forall p :: Eligible(m, root, info, ds[..n], p) ==> !ds[n].Covers(p)
  {
  }

  /** The next descriptor covers nothing listed so far, and is a range of usable pages. */
  lemma NextDescriptor(free: seq<int>, m: Phys, root: int, info: BootInfo, done: seq<Descriptor>, offset: int)
    requires MapOk(m, info) && Scanned(m, info, done, offset) && offset + DESCRIPTOR_BYTES <= info.memoryMapSize
    requires ListsEligible(free, m, root, info, done)
    ensures var d := DescriptorAt(m, info.memoryMap + offset);
      && GoodRange(m, d) && Apart(free, d)
      && Scanned(m, info, done + [d], offset + info.descriptorSize)
  {
    assert ShowMap(0) && ShowListed(0);
    ScannedNext(m, info, done, offset);
    ScanStep(m, root, info, Descriptors(m, info, 0), |done|);
  }

  lemma EligibleGrows(free: seq<int>, free': seq<int>, m: Phys, root: int, info: BootInfo, done: seq<Descriptor>, d: Descriptor)
    requires ListsEligible(free, m, root, info, done)
    requires forall p :: p in free' <==> p in free || (d.Covers(p) && !Reserved(m, root, info, p))
    ensures ListsEligible(free', m, root, info, done + [d])
  {
    assert ShowListed(0);
    forall p
      ensures p in free' <==> Eligible(m, root, info, done + [d], p)
    {
      CoveredAppend(done, d, p);
    }
  }

  /** No listed page holds a byte in use. */
  lemma NoneInUse(free: seq<int>, m: Phys, root: int, info: BootInfo, ds: seq<Descriptor>)
    requires ListsEligible(free, m, root, info, ds)
    ensures forall p, a :: p in free && Within(a, p, p + 4096) ==> !InUse(info, a)
  {
    assert ShowListed(0);
    forall p, a | p in free && Within(a, p, p + 4096)
      ensures !InUse(info, a)
    {
      assert Eligible(m, root, info, ds, p);
      ReservedExactly(info, p);
    }
  }

  /** A page address below 2^52, page 0 included. */
  predicate Usable(p: int) { p == 0 || PageAddr(p) }

  /** The pages that can be read back from the list, newest first: those added since page 0. */
  function Listed(added: seq<int>): (list: seq<int>)
    ensures |list| <= |added| && list == added[..|list|]
  {
    if added == [] || added[0] == 0 then [] else [added[0]] + Listed(added[1..])
  }

  lemma {:induction false} ListedAll(added: seq<int>)
    ensures Listed(added) == added <==> 0 !in added
    ensures |Listed(added)| == |added| <==> 0 !in added
    decreases |added|
  {
    if added != [] {
      assert added == [added[0]] + added[1..];
      ListedAll(added[1..]);
    }
  }

  /** What the writes of add_free_page() do to the list read from its head. */
  lemma PushAny(m: Phys, head: int, added: seq<int>, page: int)
    requires FreeList(m, head, |Listed(added)|, Listed(added))
    requires Usable(page) && page in m && |m[page]| == ENTRIES && page !in added
    ensures Listed([page] + added) == if page == 0 then [] else [page] + Listed(added)
    ensures FreeList(m[page := m[page][0 := Pointer(head)]], page, |Listed([page] + added)|, Listed([page] + added))
  {
    assert ([page] + added)[1..] == added;
    if page != 0 {
      assert page !in Listed(added);
      PushFree(m, head, |Listed(added)|, Listed(added), page);
    }
  }

  /** Following the links from the head gives one list. */
  lemma {:induction false} OneList(m: Phys, head: int, a: seq<int>, b: seq<int>)
    requires FreeList(m, head, |a|, a) && FreeList(m, head, |b|, b)
    ensures a == b
    decreases |a|
  {
    assert a != [] ==> PageAddr(a[0]);
    assert b != [] ==> PageAddr(b[0]);
    if a != [] {
      PopFree(m, head, |a|, a);
      PopFree(m, head, |b|, b);
      OneList(m, m[head][0].Num(), a[1..], b[1..]);
      assert a == [a[0]] + a[1..] && b == [b[0]] + b[1..];
    }
  }

  ghost predicate ShowAdded(j: int) { true }

  /** The pages added so far are unreserved and linked from `head`, and everything else is as it was
      at boot; kept folded. */
  ghost predicate AddedOk(m: Phys, boot: Phys, root: int, info: BootInfo, head: int, count: int, added: seq<int>) {
    forall j {:trigger ShowAdded(j)} :: ShowAdded(j) ==>
      && FreeList(m, head, |Listed(added)|, Listed(added)) && count == |added| && Links.Distinct(added)
      && AgreesOutside(m, boot, added)
      && (forall p :: p in added ==> !Reserved(boot, root, info, p))
  }

  /** What the writes of add_free_page() leave. */
  lemma AddedMore(m: Phys, boot: Phys, root: int, info: BootInfo, head: int, count: int, added: seq<int>, page: int)
    requires AddedOk(m, boot, root, info, head, count, added) && Pages(boot)
    requires !Reserved(boot, root, info, page) && Usable(page) && page in boot && page !in added
    ensures page in m && |m[page]| == ENTRIES
    ensures AddedOk(m[page := m[page][0 := Pointer(head)]], boot, root, info, page, count + 1, [page] + added)
    ensures Listed([page] + added) == if page == 0 then [] else [page] + Listed(added)
  {
    assert ShowAdded(0);
    AgreesPush(m, boot, added, page, head);
    PushAny(m, head, added, page);
  }

  /** `BootAllocator.Building` stays folded in a proof until it mentions `ShowBuilding`. */
  ghost predicate ShowBuilding(j: int) { true }

  class BootAllocator {
    const info: BootInfo
    const root: int
    ghost const boot: Phys
    var phys: Phys
    var freePages: int
    var freePageCount: int
    const reservedTablePages: array<int>
    var reservedTablePageCount: nat
    var reservedTablePagesReady: bool
    ghost var added: seq<int>

    constructor (info: BootInfo, root: int, phys: Phys)
      requires Pages(phys)
      ensures this.info == info && this.root == root && boot == phys
      ensures Building() && added == []
      ensures fresh(reservedTablePages)
    {
      this.info, this.root, this.boot, this.phys := info, root, phys, phys;
      freePages, freePageCount, added := 0, 0, [];
      reservedTablePages := new int[MAX_RESERVED_TABLE_PAGES];
      reservedTablePageCount, reservedTablePagesReady := 0, false;
    }

    /** The recorded table pages. */
    ghost function Recorded(): seq<int>
      reads this, reservedTablePages
      requires reservedTablePageCount <= reservedTablePages.Length
    {
      reservedTablePages[..reservedTablePageCount]
    }

    ghost predicate Recording() reads this {
      reservedTablePages.Length == MAX_RESERVED_TABLE_PAGES && reservedTablePageCount <= MAX_RESERVED_TABLE_PAGES
    }

    /** While the walk runs: distinct table pages are recorded. */
    ghost predicate Collecting() reads this, reservedTablePages {
      && Recording()
      && Links.Distinct(Recorded())
      && (forall x :: x in Recorded() ==> IsTablePage(phys, root, x))
    }

    /** The array is full and a table page is missing from it: the source panics. */
    ghost predicate Overflow() reads this, reservedTablePages {
      && Collecting()
      && reservedTablePageCount == MAX_RESERVED_TABLE_PAGES
      && exists x :: x !in Recorded() && IsTablePage(phys, root, x)
    }

    /** Record a table page once, if there is room. */
    method AddReservedTablePage(page: int) returns (ok: bool)
      requires Collecting() && IsTablePage(phys, root, page)
      modifies this`reservedTablePageCount, reservedTablePages
      ensures ok ==> Collecting() && forall x :: x in Recorded() <==> x in old(Recorded()) || x == page
      ensures !ok ==> Overflow()
    {
      var index := 0;
      while index < reservedTablePageCount
        invariant index <= reservedTablePageCount
        invariant page !in reservedTablePages[..index]
      {
        if reservedTablePages[index] == page {
          return true;
        }
        index := index + 1;
      }
      if reservedTablePageCount >= MAX_RESERVED_TABLE_PAGES {
        return false;
      }
      reservedTablePages[reservedTablePageCount] := page;
      reservedTablePageCount := reservedTablePageCount + 1;
      assert Recorded() == old(Recorded()) + [page];
      return true;
    }

    /** The innermost loop: the page tables below one page directory. */
    method CollectDirectory(pd: int) returns (ok: bool)
      requires Collecting() && forall x :: InDirectory(phys, pd, x) ==> IsTablePage(phys, root, x)
      modifies this`reservedTablePageCount, reservedTablePages
      ensures ok ==> Collecting() && forall x :: x in Recorded() <==> x in old(Recorded()) || InDirectory(phys, pd, x)
      ensures !ok ==> Overflow()
    {
      var k := 0;
      while k < ENTRIES
        invariant Collecting() && 0 <= k <= ENTRIES
        invariant forall x :: x in Recorded() <==>
                    x in old(Recorded()) || exists j :: 0 <= j < k && Directory(Slot(phys, pd, j)) && Slot(phys, pd, j).page == x
      {
        var e := Slot(phys, pd, k);
        if Directory(e) {
          assert InDirectory(phys, pd, e.page);
          ok := AddReservedTablePage(e.page);
          if !ok {
            return;
          }
        }
        k := k + 1;
      }
      ok := true;
    }

    /** The middle loop: the directories and page tables below one pointer table. */
    method CollectPointers(pdpt: int) returns (ok: bool)
      requires Collecting() && forall x :: InPointers(phys, pdpt, x) ==> IsTablePage(phys, root, x)
      modifies this`reservedTablePageCount, reservedTablePages
      ensures ok ==> Collecting() && forall x :: x in Recorded() <==> x in old(Recorded()) || InPointers(phys, pdpt, x)
      ensures !ok ==> Overflow()
    {
      var j := 0;
      while j < ENTRIES
        invariant Collecting() && 0 <= j <= ENTRIES
        invariant forall x :: x in Recorded() <==>
                    x in old(Recorded()) || exists i :: 0 <= i < j && UnderEntry(phys, Slot(phys, pdpt, i), x)
      {
        var e := Slot(phys, pdpt, j);
        if Directory(e) {
          assert forall x :: UnderEntry(phys, e, x) ==> InPointers(phys, pdpt, x);
          assert UnderEntry(phys, e, e.page);
          ok := AddReservedTablePage(e.page);
          if !ok {
            return;
          }
          ok := CollectDirectory(e.page);
          if !ok {
            return;
          }
        }
        j := j + 1;
      }
      ok := true;
    }

    /** collect_active_page_tables(): exactly the reachable table pages, or a full array. */
    method CollectActivePageTables() returns (ok: bool)
      requires Recording() && reservedTablePageCount == 0
      modifies this`reservedTablePageCount, reservedTablePages
      ensures ok ==> Collecting() && forall x :: x in Recorded() <==> IsTablePage(phys, root, x)
      ensures !ok ==> Overflow()
    {
      ok := AddReservedTablePage(root);
      var i := 0;
      while i < ENTRIES && ok
        invariant 0 <= i <= ENTRIES && if ok then Collecting() else Overflow()
        invariant ok ==> forall x :: x in Recorded() <==>
                    x == root || exists j :: 0 <= j < i && UnderRoot(phys, Slot(phys, root, j), x)
      {
        var e := Slot(phys, root, i);
        if e.present {
          assert forall x :: UnderRoot(phys, e, x) ==> IsTablePage(phys, root, x);
          assert UnderRoot(phys, e, e.page);
          ok := AddReservedTablePage(e.page);
          if ok {
            ok := CollectPointers(e.page);
          }
        }
        i := i + 1;
      }
    }

    /** What holds throughout: the list so far consists of unreserved pages, and everything
        else is as it was at boot. */
    ghost predicate Building() reads this, reservedTablePages {
      forall j {:trigger ShowBuilding(j)} :: ShowBuilding(j) ==> Progress()
    }

    ghost predicate Progress() reads this, reservedTablePages {
      && Recording() && Pages(boot)
      && AddedOk(phys, boot, root, info, freePages, freePageCount, added)
      && (reservedTablePagesReady ==> forall p :: p in Recorded() <==> IsTablePage(boot, root, p))
      && (!reservedTablePagesReady ==> phys == boot && added == [] && reservedTablePageCount == 0)
    }

    method ArchPageTableUsesPage(page: int) returns (ok: bool, used: bool)
      requires Building()
      modifies this`reservedTablePageCount, this`reservedTablePagesReady, reservedTablePages
      ensures ok ==> Building()
      ensures page % 4096 != 0 ==> ok && !used
      ensures ok && page % 4096 == 0 ==> reservedTablePagesReady && used == IsTablePage(boot, root, page)
      ensures !ok ==> TooManyTables(boot, root)
    {
      if page % 4096 != 0 {
        return true, false;
      }
      assert ShowBuilding(0);
      if !reservedTablePagesReady {
        ok := CollectActivePageTables();
        if !ok {
          ghost var x :| x !in Recorded() && IsTablePage(phys, root, x);
          ghost var s := Recorded() + [x];
          assert |s| > MAX_RESERVED_TABLE_PAGES && Links.Distinct(s) && forall y :: y in s ==> IsTablePage(boot, root, y);
          return false, false;
        }
        reservedTablePagesReady := true;
      }
      var index := 0;
      while index < reservedTablePageCount
        invariant index <= reservedTablePageCount
        invariant page !in reservedTablePages[..index]
      {
        if reservedTablePages[index] == page {
          assert page in Recorded();
          return true, true;
        }
        index := index + 1;
      }
      return true, false;
    }

    method PageIsReserved(page: int) returns (ok: bool, reserved: bool)
      requires Building()
      modifies this`reservedTablePageCount, this`reservedTablePagesReady, reservedTablePages
      ensures ok ==> Building()
      ensures ok && page % 4096 != 0 ==> reserved == InReservedRange(info, page)
      ensures ok && page % 4096 == 0 ==> reserved == Reserved(boot, root, info, page) && (!reserved ==> reservedTablePagesReady)
      ensures !ok ==> TooManyTables(boot, root)
    {
      if Overlaps(page, info.kernelStart, info.kernelEnd)
        || Overlaps(page, info.address, info.address + BOOT_INFO_BYTES)
        || Overlaps(page, info.memoryMap, info.memoryMap + info.memoryMapSize)
      {
        return true, true;
      }
      ok, reserved := ArchPageTableUsesPage(page);
    }

    /** add_free_page(). Physical page 0 has the address that ends the list: adding it loses every
        page added before, while the count goes on. */
    method AddFreePage(page: int)
      requires Building() && reservedTablePagesReady && !Reserved(boot, root, info, page)
      requires Usable(page) && page in boot && page !in added
      modifies this`phys, this`freePages, this`freePageCount, this`added
      ensures Building() && added == [page] + old(added)
      ensures Listed(added) == if page == 0 then [] else [page] + Listed(old(added))
      ensures freePages == page && freePageCount == old(freePageCount) + 1
    {
      assert ShowBuilding(0);
      AddedMore(phys, boot, root, info, freePages, freePageCount, added, page);
      phys := phys[page := phys[page][0 := Pointer(freePages)]];
      freePages := page;
      freePageCount := freePageCount + 1;
      added := [page] + added;
    }

    /** One page of a conventional range: listed unless it is reserved. */
    method ConsiderPage(page: int) returns (ok: bool)
      requires Building() && Usable(page) && page in boot && page !in added
      modifies this`phys, this`freePages, this`freePageCount, this`added
      modifies this`reservedTablePageCount, this`reservedTablePagesReady, reservedTablePages
      ensures !ok ==> TooManyTables(boot, root)
      ensures ok ==> Building() && added == if Reserved(boot, root, info, page) then old(added) else [page] + old(added)
    {
      var reserved;
      ok, reserved := PageIsReserved(page);
      if ok && !reserved {
        AddFreePage(page);
      }
    }

    /** The descending loop of add_conventional_range(), from its last whole page to its first. */
    method SweepRange(d: Descriptor, first: int, last: int) returns (ok: bool)
      requires Building() && GoodRange(boot, d) && Apart(added, d)
      requires d.kind == CONVENTIONAL && first == AlignUp(d.start) && last == AlignDown(d.End() - 4096) && first <= last
      modifies this`phys, this`freePages, this`freePageCount, this`added
      modifies this`reservedTablePageCount, this`reservedTablePagesReady, reservedTablePages
      ensures ok ==> Building() && Swept(added, old(added), boot, root, info, d, first - 4096)
      ensures !ok ==> TooManyTables(boot, root)
    {
      var page := last;
      SweepStart(added, boot, root, info, d);
      while true
        invariant Building() && page % 4096 == 0 && first <= page <= last
        invariant Swept(added, old(added), boot, root, info, d, page)
        decreases page
      {
        ghost var before := added;
        SweepFresh(added, old(added), boot, root, info, d, page);
        ok := ConsiderPage(page);
        if !ok {
          return;
        }
        SweepStep(before, added, old(added), boot, root, info, d, page);
        if page == first {
          return;
        }
        page := page - 4096;
      }
    }

    /** add_conventional_range(): list the unreserved whole pages of the range. */
    method AddConventionalRange(d: Descriptor) returns (ok: bool)
      requires Building() && GoodRange(boot, d) && d.kind == CONVENTIONAL && Apart(added, d)
      modifies this`phys, this`freePages, this`freePageCount, this`added
      modifies this`reservedTablePageCount, this`reservedTablePagesReady, reservedTablePages
      ensures ok ==> Building()
      ensures !ok ==> TooManyTables(boot, root)
      ensures ok ==> forall p :: p in added <==> p in old(added) || (d.Covers(p) && !Reserved(boot, root, info, p))
    {
      var first, end := AlignUp(d.start), d.End();
      WholePages(d);
      if first + 4096 > end {
        return true;
      }
      ok := SweepRange(d, first, AlignDown(end - 4096));
      assert ShowSwept(0);
    }

    lemma MapUnchanged(offset: int)
      requires Building() && 0 <= offset && offset + DESCRIPTOR_BYTES <= info.memoryMapSize
      ensures DescriptorAt(phys, info.memoryMap + offset) == DescriptorAt(boot, info.memoryMap + offset)
    {
      assert ShowBuilding(0) && ShowAdded(0);
      DescriptorUnchanged(phys, boot, root, info, added, offset);
    }

    method AddIfConventional(d: Descriptor) returns (ok: bool)
      requires Building() && GoodRange(boot, d) && Apart(added, d)
      modifies this`phys, this`freePages, this`freePageCount, this`added
      modifies this`reservedTablePageCount, this`reservedTablePagesReady, reservedTablePages
      ensures ok ==> Building()
      ensures !ok ==> TooManyTables(boot, root)
      ensures ok ==> forall p :: p in added <==> p in old(added) || (d.Covers(p) && !Reserved(boot, root, info, p))
    {
      if d.kind == CONVENTIONAL {
        ok := AddConventionalRange(d);
      } else {
        ok := true;
      }
    }

    /** One descriptor of the map: a conventional range is added, others are skipped. */
    method AddDescriptor(offset: int, ghost done: seq<Descriptor>) returns (ok: bool)
      requires Building() && MapOk(boot, info) && 0 <= offset && offset + DESCRIPTOR_BYTES <= info.memoryMapSize
      requires Scanned(boot, info, done, offset)
      requires ListsEligible(added, boot, root, info, done)
      modifies this`phys, this`freePages, this`freePageCount, this`added
      modifies this`reservedTablePageCount, this`reservedTablePagesReady, reservedTablePages
      ensures !ok ==> TooManyTables(boot, root)
      ensures ok ==> Building()
      ensures ok ==> ListsEligible(added, boot, root, info, done + [DescriptorAt(boot, info.memoryMap + offset)])
      ensures Scanned(boot, info, done + [DescriptorAt(boot, info.memoryMap + offset)], offset + info.descriptorSize)
    {
      MapUnchanged(offset);
      NextDescriptor(added, boot, root, info, done, offset);
      var d := DescriptorAt(phys, info.memoryMap + offset);
      ok := AddIfConventional(d);
      if ok {
        EligibleGrows(old(added), added, boot, root, info, done, d);
      }
    }

    /** The loop of init_free_pages() over the memory map. */
    method ScanMap() returns (ok: bool)
      requires Building() && MapOk(boot, info) && added == []
      modifies this`phys, this`freePages, this`freePageCount, this`added
      modifies this`reservedTablePageCount, this`reservedTablePagesReady, reservedTablePages
      ensures !ok ==> TooManyTables(boot, root)
      ensures ok ==> Building() && ListsEligible(added, boot, root, info, Descriptors(boot, info, 0))
    {
      var offset := 0;
      ghost var done: seq<Descriptor> := [];
      while offset + DESCRIPTOR_BYTES <= info.memoryMapSize
        invariant 0 <= offset && Building()
        invariant Scanned(boot, info, done, offset)
        invariant ListsEligible(added, boot, root, info, done)
        decreases info.memoryMapSize - offset
      {
        ok := AddDescriptor(offset, done);
        if !ok {
          return;
        }
        done := done + [DescriptorAt(boot, info.memoryMap + offset)];
        offset := offset + info.descriptorSize;
      }
      ScannedAll(boot, info, done, offset);
      return true;
    }

    /** init_free_pages(): exactly the eligible pages are added, each once, and counted. The list that
        can be read back is what was added since page 0, so it holds all of them, and as many as the
        count says, exactly when page 0 is not eligible. */
    method InitFreePages() returns (ok: bool)
      requires Building() && GoodMap(boot, info) && added == []
      modifies this`phys, this`freePages, this`freePageCount, this`added
      modifies this`reservedTablePageCount, this`reservedTablePagesReady, reservedTablePages
      ensures !ok ==> TooManyTables(boot, root)
      ensures ok ==> FreeList(phys, freePages, |Listed(added)|, Listed(added)) && AgreesOutside(phys, boot, added)
      ensures ok ==> freePageCount == |added| && Links.Distinct(added)
      ensures ok ==> forall p :: p in added <==> Eligible(boot, root, info, Descriptors(boot, info, 0), p)
      ensures ok ==> forall p, a :: p in added && Within(a, p, p + 4096) ==> !InUse(info, a)
      ensures ok ==> (Listed(added) == added <==> !Eligible(boot, root, info, Descriptors(boot, info, 0), 0))
      ensures ok ==> (|Listed(added)| == freePageCount <==> !Eligible(boot, root, info, Descriptors(boot, info, 0), 0))
    {
      ok := ScanMap();
      assert ShowBuilding(0) && ShowListed(0) && ShowAdded(0);
      ListedAll(added);
      if ok {
        NoneInUse(added, boot, root, info, Descriptors(boot, info, 0));
      }
    }
  }
}
