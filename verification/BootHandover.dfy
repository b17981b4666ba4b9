/** From boot to the running machine: page_tables_init() copies the firmware's top table into the
    kernel image, and what the page allocator left meets what the machine starts from. */
module BootHandover {
  import opened PageTree
  import opened VirtualMemory
  import opened BootPages

  /** No large page below the governed slots. */
  ghost predicate NoLarge(m: Phys, tables: Tables, slots: set<int>) {
    forall t, i, p :: ParentOf(m, tables, slots, t, i, p) && tables[t] != [] ==> !Large(m[t][i])
  }

  /** A table of the tree, reached from the root in at most three steps, is a table page. */
  lemma TablesAreReserved(m: Phys, root: int, tables: Tables, slots: set<int>, t: int)
    requires Tree(m, root, tables, slots) && AllLinked(m, root, tables, slots) && NoLarge(m, tables, slots) && t in tables
    ensures IsTablePage(m, root, t)
  {
    if t != root {
      assert ShowLinks(0);
      var u, i :| ParentOf(m, tables, slots, u, i, t);
      if tables[u] == [] {
        OnlyRoot(m, root, tables, slots, u);
        assert UnderRoot(m, Slot(m, root, i), t);
      } else {
        var v, j :| ParentOf(m, tables, slots, v, j, u);
        assert !Large(m[u][i]) && Directory(Slot(m, u, i));
        if tables[v] == [] {
          OnlyRoot(m, root, tables, slots, v);
          assert UnderEntry(m, Slot(m, u, i), t);
          assert InPointers(m, u, t);
          assert UnderRoot(m, Slot(m, root, j), t);
        } else {
          ThirdLevel(m, root, tables, slots, t, u, i, v, j);
        }
      }
    }
  }

  /** Only the root has no index before it. */
  lemma OnlyRoot(m: Phys, root: int, tables: Tables, slots: set<int>, t: int)
    requires Tree(m, root, tables, slots) && AllLinked(m, root, tables, slots) && t in tables && tables[t] == []
    ensures t == root
  {
    assert ShowLinks(0);
  }

  lemma ThirdLevel(m: Phys, root: int, tables: Tables, slots: set<int>, t: int, u: int, i: int, v: int, j: int)
    requires Tree(m, root, tables, slots) && AllLinked(m, root, tables, slots) && NoLarge(m, tables, slots)
    requires ParentOf(m, tables, slots, u, i, t) && ParentOf(m, tables, slots, v, j, u) && tables[v] != []
    ensures IsTablePage(m, root, t)
  {
    assert ShowLinks(0);
    assert v != root;
    var w, k :| ParentOf(m, tables, slots, w, k, v);
    assert |tables[u]| == |tables[w]| + 2 && tables[w] == [];
    OnlyRoot(m, root, tables, slots, w);
    assert Directory(Slot(m, u, i)) && Directory(Slot(m, v, j));
    assert InDirectory(m, u, t);
    assert UnderEntry(m, Slot(m, v, j), t);
    assert InPointers(m, v, t);
    assert UnderRoot(m, Slot(m, root, k), t);
  }

  /** page_tables_init(): the new root holds a copy of the old one. */
  function Copied(m: Phys, root: int, k: int): Phys
    requires root in m
  {
    m[k := m[root]]
  }

  /** The tables below the new root are those below the old one. */
  function Moved(tables: Tables, root: int, k: int): Tables {
    (tables - {root})[k := []]
  }

  lemma CopyKeepsTree(m: Phys, root: int, tables: Tables, slots: set<int>, k: int)
    requires Tree(m, root, tables, slots) && AllLinked(m, root, tables, slots) && k in m && k !in tables
    ensures Tree(Copied(m, root, k), k, Moved(tables, root, k), slots)
    ensures AllLinked(Copied(m, root, k), k, Moved(tables, root, k), slots)
  {
    var m': Phys, tables' := Copied(m, root, k), Moved(tables, root, k);
    forall t, i | t in tables' && Governed(tables', t, i, slots) && m'[t][i].present
      ensures m'[t][i].page in tables' && tables'[m'[t][i].page] == tables'[t] + [i]
    {
      var u := if t == k then root else t;
      assert Governed(tables, u, i, slots) && m[u][i] == m'[t][i];
      assert tables[m[u][i].page] == tables[u] + [i];
    }
    assert ShowLinks(0);
    forall p | p in tables' && p != k
      ensures HasParent(m', tables', slots, p)
    {
      var t, i :| ParentOf(m, tables, slots, t, i, p);
      assert ParentOf(m', tables', slots, if t == root then k else t, i, p);
    }
  }

  lemma CopyKeepsWalks(m: Phys, root: int, tables: Tables, slots: set<int>, k: int, path: seq<int>)
    requires Tree(m, root, tables, slots) && k !in tables && LeafPath(path, slots)
    ensures Walk(Copied(m, root, k), k, path) == Walk(m, root, path)
  {
    var m': Phys := Copied(m, root, k);
    assert Slot(m', k, path[0]) == Slot(m, root, path[0]);
    if m[root][path[0]].present {
      assert tables[root] + path == path;
      Descend(m, root, tables, slots, root, path);
      SameTables(m, m', root, tables, slots, m[root][path[0]].page, path[1..]);
    }
  }

  /** What init_free_pages() and page_tables_init() leave is what the machine starts from: for a tree
      without large pages below its slots, a heap region that is not mapped, and a new root inside
      the kernel image. */
  lemma Handover(boot: Phys, m: Phys, root: int, info: BootInfo, tables: Tables, slots: set<int>, k: int,
                 head: int, count: int, free: seq<int>)
    requires Tree(boot, root, tables, slots) && AllLinked(boot, root, tables, slots) && NoLarge(boot, tables, slots)
    requires NothingAbove(boot, root, 0) && forall i :: 510 <= i < 512 ==> i in slots
    requires k in boot && k !in tables && Overlaps(k, info.kernelStart, info.kernelEnd)
    requires FreeList(m, head, count, free) && AgreesOutside(m, boot, free) && forall p :: p in free ==> !Reserved(boot, root, info, p)
    ensures root in m
    ensures var m', tables' := Copied(m, root, k), Moved(tables, root, k);
      && FreeList(m', head, count, free)
      && Tree(m', k, tables', slots) && AllLinked(m', k, tables', slots)
      && (forall p :: p in free ==> p !in tables')
      && NothingAbove(m', k, 0)
  {
    forall t | t in tables
      ensures t !in free && t in m && m[t] == boot[t]
    {
      TablesAreReserved(boot, root, tables, slots, t);
    }
    NonTableWrite(boot, m, root, tables, slots);
    SameLinked(boot, m, root, tables, slots);
    CopyKeepsTree(m, root, tables, slots, k);
    assert k !in free;
    NonFreeWrite(m, Copied(m, root, k), head, count, free);
    SameAbove(boot, m, root, slots, 0);
    CopyKeepsAbove(m, root, tables, slots, k);
  }

  lemma CopyKeepsAbove(m: Phys, root: int, tables: Tables, slots: set<int>, k: int)
    requires Tree(m, root, tables, slots) && k !in tables && NothingAbove(m, root, 0) && forall i :: 510 <= i < 512 ==> i in slots
    ensures NothingAbove(Copied(m, root, k), k, 0)
  {
    forall j | 0 <= j < HEAP_PAGES
      ensures Absent(Copied(m, root, k), k, j)
    {
      HeapPath(HeapPage(j));
      assert Absent(m, root, j);
      CopyKeepsWalks(m, root, tables, slots, k, PathOf(HeapPage(j)));
    }
  }

  /** Boot as a whole: with page 0 not eligible, the machine that starts after it is valid, owns
      exactly the eligible pages, and has them all free. */
  method Boot(allocator: BootAllocator, k: int, ghost tables: Tables, ghost slots: set<int>) returns (ok: bool, machine: Machine?)
    requires allocator.Building() && GoodMap(allocator.boot, allocator.info) && allocator.added == []
    requires Tree(allocator.boot, allocator.root, tables, slots) && AllLinked(allocator.boot, allocator.root, tables, slots)
    requires NoLarge(allocator.boot, tables, slots) && NothingAbove(allocator.boot, allocator.root, 0)
    requires forall i :: 510 <= i < 512 ==> i in slots
    requires k in allocator.boot && k !in tables && Overlaps(k, allocator.info.kernelStart, allocator.info.kernelEnd)
    requires !Eligible(allocator.boot, allocator.root, allocator.info, Descriptors(allocator.boot, allocator.info, 0), 0)
    modifies allocator, allocator.reservedTablePages
    ensures !ok ==> TooManyTables(allocator.boot, allocator.root)
    ensures ok ==> machine != null && machine.Valid() && machine.root == k && machine.held == {} && machine.own == {} && machine.leaves == []
    ensures ok ==> forall p :: p in machine.pool <==>
      Eligible(allocator.boot, allocator.root, allocator.info, Descriptors(allocator.boot, allocator.info, 0), p)
  {
    ok := allocator.InitFreePages();
    if !ok {
      return false, null;
    }
    var root := allocator.root;
    Handover(allocator.boot, allocator.phys, root, allocator.info, tables, slots, k, allocator.freePages, allocator.freePageCount, allocator.added);
    machine := new Machine(Copied(allocator.phys, root, k), allocator.freePages, allocator.freePageCount, k,
                           slots, allocator.added, Moved(tables, root, k));
  }
}
