/** The four-level page-table radix tree of arch/x86/mm/page_table.c, over an explicit
    physical memory: a map from page base addresses to the 512 words of that page. */
module PageTree {
  import opened Division

  const ENTRIES := 512

  /** A 64-bit word split at bit 0, bit 12 and bit 52. Read as a page-table entry, `present`
      is PAGE_PRESENT, `page` is the word masked with X86_PAGE_MASK, `low` holds bits 1-11
      and `high` bits 52-63. */
  datatype Word = Word(high: int, page: int, low: int, present: bool) {
    predicate Valid() {
      && 0 <= high < 4096 && 0 <= low < 2048
      && 0 <= page < 0x10_0000_0000_0000 && page % 4096 == 0
    }

    /** The number the word denotes. */
    function Num(): int {
      high * 0x10_0000_0000_0000 + page + 2 * low + if present then 1 else 0
    }
  }

  const ZERO := Word(0, 0, 0, false)

  /** The word denoting `n`. */
  function WordOf(n: int): Word {
    Word(n / 0x10_0000_0000_0000, n / 4096 % 0x100_0000_0000 * 4096, n % 4096 / 2, n % 2 == 1)
  }

  lemma WordRoundTrip(n: int)
    requires 0 <= n < 0x1_0000_0000_0000_0000
    ensures WordOf(n).Valid() && WordOf(n).Num() == n
  {
    var q := n / 4096;
    assert n / 0x10_0000_0000_0000 == q / 0x100_0000_0000;
    assert n == q * 4096 + n % 4096;
    assert n % 2 == n % 4096 % 2;
  }

  lemma NumRoundTrip(w: Word)
    requires w.Valid()
    ensures 0 <= w.Num() < 0x1_0000_0000_0000_0000 && WordOf(w.Num()) == w
  {
    var n := w.Num();
    var k, r := w.page / 4096, 2 * w.low + if w.present then 1 else 0;
    var q := w.high * 0x100_0000_0000 + k;
    assert n == 4096 * q + r && 0 <= r < 4096;
    assert n / 4096 == q && n % 4096 == r;
    assert q / 0x100_0000_0000 == w.high && q % 0x100_0000_0000 == k;
    assert n / 0x10_0000_0000_0000 == q / 0x100_0000_0000;
    assert r / 2 == w.low && (r % 2 == 1 <==> w.present);
    assert n % 2 == r % 2;
  }

  /** Physical memory: page base address -> contents, one word per slot. */
  type Phys = map<int, seq<Word>>

  /** Every page of memory holds exactly 512 words. */
  ghost predicate Pages(m: Phys) {
    forall p :: p in m ==> |m[p]| == ENTRIES
  }

  /** A physical page address an entry can carry: aligned, not null, below 2^52. */
  predicate PageAddr(p: int) { 0 < p < 0x10_0000_0000_0000 && p % 4096 == 0 }

  /** A bare page address stored as a word. */
  function Pointer(p: int): Word { Word(0, p, 0, false) }

  /** `table | PAGE_PRESENT | PAGE_WRITABLE` for a page-aligned table address. */
  function TableEntry(table: int): Word { Word(0, table, 1, true) }

  /** `(phys & X86_PAGE_MASK) | flags | PAGE_PRESENT` for flags outside the address mask and
      a page-aligned `phys`, which the mask cuts at 2^52. */
  function LeafEntry(phys: int, flags: Word): Word {
    Word(flags.high, if phys < 0x10_0000_0000_0000 then phys else phys % 0x10_0000_0000_0000, flags.low, true)
  }

  /** The number of a leaf entry: the page below 2^52, the flags, and PAGE_PRESENT. */
  predicate Carries(e: Word, phys: int, flags: Word) {
    e.present && e.Num() == phys % 0x10_0000_0000_0000 + flags.Num() + if flags.present then 0 else 1
  }

  lemma LeafEntryCarries(phys: int, flags: Word)
    requires flags.page == 0 && phys >= 0
    ensures Carries(LeafEntry(phys, flags), phys, flags)
  {
  }

  /** The word in slot `i` of table `t`; memory outside `m` reads as zero. */
  function Slot(m: Phys, t: int, i: int): Word {
    if t in m && 0 <= i < |m[t]| then m[t][i] else ZERO
  }

  /** A path is the list of table indices from some level down to the leaf slot. */
  predicate IsPath(path: seq<int>) {
    1 <= |path| <= 4 && forall k :: 0 <= k < |path| ==> 0 <= path[k] < ENTRIES
  }

  /** The leaf word a lookup from table `t` finds, or zero when some level is absent. */
  function Walk(m: Phys, t: int, path: seq<int>): Word
    decreases |path|
  {
    if path == [] then ZERO
    else
      var e := Slot(m, t, path[0]);
      if |path| == 1 then e
      else if e.present then Walk(m, e.page, path[1..])
      else ZERO
  }

  /** How many tables must be created before the leaf slot of `path` exists. */
  function Missing(m: Phys, t: int, path: seq<int>): nat
    decreases |path|
  {
    if |path| <= 1 then 0
    else
      var e := Slot(m, t, path[0]);
      if e.present then Missing(m, e.page, path[1..]) else |path| - 1
  }

  /** The table holding the leaf slot of `path`, when every level is present. */
  function LeafTable(m: Phys, t: int, path: seq<int>): int
    decreases |path|
  {
    if |path| <= 1 then t else LeafTable(m, Slot(m, t, path[0]).page, path[1..])
  }

  /** A lookup that misses a table finds nothing. */
  lemma {:induction false} AbsentWalk(m: Phys, t: int, path: seq<int>)
    requires Missing(m, t, path) > 0
    ensures Walk(m, t, path) == ZERO
    decreases |path|
  {
    if Slot(m, t, path[0]).present {
      AbsentWalk(m, Slot(m, t, path[0]).page, path[1..]);
    }
  }

  /** Table pages, each labelled with the index prefix that leads to it from the root. */
  type Tables = map<int, seq<int>>

  /** `i` is a slot of `t` inside one of the PML4 slots whose subtrees hold no large page. */
  predicate Governed(tables: Tables, t: int, i: int, slots: set<int>)
    requires t in tables
  {
    && 0 <= i < ENTRIES
    && |tables[t]| < 3
    && (tables[t] + [i])[0] in slots
  }

  /** Shape of the large-page-free part of the tree: every present non-leaf entry leads
      to a table whose label extends the label of the table holding the entry. */
  ghost predicate Tree(m: Phys, root: int, tables: Tables, slots: set<int>) {
    && Pages(m)
    && root in tables && tables[root] == []
    && (forall t :: t in tables ==> t in m && |tables[t]| <= 3)
    && (forall t :: t in tables && tables[t] != [] ==> tables[t][0] in slots)
    && (forall t, i :: t in tables && Governed(tables, t, i, slots) && m[t][i].present ==>
          m[t][i].page in tables && tables[m[t][i].page] == tables[t] + [i])
  }

  /** `path` continues the label of `t` down to a leaf slot. */
  predicate Reaches(tables: Tables, t: int, path: seq<int>, slots: set<int>) {
    && t in tables
    && IsPath(path)
    && |tables[t]| + |path| == 4
    && (tables[t] + path)[0] in slots
  }

  /** One level down a present entry. */
  lemma Descend(m: Phys, root: int, tables: Tables, slots: set<int>, t: int, path: seq<int>)
    requires Tree(m, root, tables, slots)
    requires Reaches(tables, t, path, slots) && |path| > 1
    requires m[t][path[0]].present
    ensures var c := m[t][path[0]].page;
            Reaches(tables, c, path[1..], slots) && tables[c] + path[1..] == tables[t] + path
  {
    assert (tables[t] + [path[0]])[0] == (tables[t] + path)[0];
    assert Governed(tables, t, path[0], slots);
    var c := m[t][path[0]].page;
    assert tables[c] == tables[t] + [path[0]];
    assert tables[c] + path[1..] == tables[t] + path;
  }

  /** The leaf table of a path is labelled with everything but the last index. */
  lemma {:induction false} LeafTableLabel(m: Phys, root: int, tables: Tables, slots: set<int>, t: int, path: seq<int>)
    requires Tree(m, root, tables, slots)
    requires Reaches(tables, t, path, slots) && Missing(m, t, path) == 0
    ensures var l := LeafTable(m, t, path);
            && l in tables
            && tables[l] + [path[|path| - 1]] == tables[t] + path
            && Walk(m, t, path) == m[l][path[|path| - 1]]
    decreases |path|
  {
    if |path| > 1 {
      Descend(m, root, tables, slots, t, path);
      LeafTableLabel(m, root, tables, slots, m[t][path[0]].page, path[1..]);
    }
  }

  /** From the root: a leaf table determines every index but the last. */
  lemma LeafTablePrefix(m: Phys, root: int, tables: Tables, slots: set<int>, path: seq<int>)
    requires Tree(m, root, tables, slots)
    requires IsPath(path) && |path| == 4 && path[0] in slots && Missing(m, root, path) == 0
    ensures var l := LeafTable(m, root, path);
            l in tables && tables[l] == path[..3] && Walk(m, root, path) == m[l][path[3]]
  {
    LeafTableLabel(m, root, tables, slots, root, path);
    var l := LeafTable(m, root, path);
    assert tables[l] == (tables[l] + [path[3]])[..3];
  }

  /** Writing a leaf slot changes the translation of exactly one path. */
  lemma {:induction false} LeafWrite(m: Phys, root: int, tables: Tables, slots: set<int>,
                                     l: int, i: int, e: Word, t: int, path: seq<int>)
    requires Tree(m, root, tables, slots)
    requires l in tables && |tables[l]| == 3 && 0 <= i < ENTRIES
    requires Reaches(tables, t, path, slots)
    ensures var m' := m[l := m[l][i := e]];
            && Missing(m', t, path) == Missing(m, t, path)
            && Walk(m', t, path) ==
               if Missing(m, t, path) == 0 && LeafTable(m, t, path) == l && path[|path| - 1] == i then e
               else Walk(m, t, path)
    decreases |path|
  {
    if |path| > 1 && m[t][path[0]].present {
      Descend(m, root, tables, slots, t, path);
      LeafWrite(m, root, tables, slots, l, i, e, m[t][path[0]].page, path[1..]);
    }
  }

  /** Walks depend on the table pages alone. */
  lemma {:induction false} SameTables(m: Phys, m': Phys, root: int, tables: Tables, slots: set<int>, t: int, path: seq<int>)
    requires Tree(m, root, tables, slots)
    requires forall x :: x in tables ==> x in m' && m'[x] == m[x]
    requires Reaches(tables, t, path, slots)
    ensures Walk(m', t, path) == Walk(m, t, path)
    decreases |path|
  {
    if |path| > 1 && m[t][path[0]].present {
      Descend(m, root, tables, slots, t, path);
      SameTables(m, m', root, tables, slots, m[t][path[0]].page, path[1..]);
    }
  }

  /** A full-depth path inside a large-page-free part of the address space. */
  ghost predicate LeafPath(path: seq<int>, slots: set<int>) {
    IsPath(path) && |path| == 4 && path[0] in slots
  }

  /** Two memories translate every governed page alike. */
  ghost predicate SameTranslations(m: Phys, m': Phys, root: int, slots: set<int>) {
    forall path :: LeafPath(path, slots) ==> Walk(m', root, path) == Walk(m, root, path)
  }

  /** Writes outside the table pages keep the tree and every translation. */
  lemma NonTableWrite(m: Phys, m': Phys, root: int, tables: Tables, slots: set<int>)
    requires Tree(m, root, tables, slots) && Pages(m')
    requires forall x :: x in tables ==> x in m' && m'[x] == m[x]
    ensures Tree(m', root, tables, slots)
    ensures SameTranslations(m, m', root, slots)
  {
    forall path | LeafPath(path, slots)
      ensures Walk(m', root, path) == Walk(m, root, path)
    {
      SameTables(m, m', root, tables, slots, root, path);
    }
  }

  /** The contents `clear_page` leaves. */
  function ZeroPage(): (z: seq<Word>)
    ensures |z| == ENTRIES
    ensures forall k :: 0 <= k < ENTRIES ==> z[k] == ZERO
  {
    seq(ENTRIES, k => ZERO)
  }

  /** The memory after a fresh zeroed table `p` is linked into slot `i` of `t0`. */
  function Linked(m: Phys, t0: int, i: int, p: int): Phys
    requires t0 in m && 0 <= i < |m[t0]| && t0 != p
  {
    m[p := ZeroPage()][t0 := m[t0][i := TableEntry(p)]]
  }

  /** Clearing the page first makes no difference. */
  lemma LinkCleared(m: Phys, t0: int, i: int, p: int)
    requires t0 in m && 0 <= i < |m[t0]| && t0 != p
    ensures Linked(m[p := ZeroPage()], t0, i, p) == Linked(m, t0, i, p)
  {
  }

  lemma ZeroTable(m: Phys, p: int, path: seq<int>)
    requires p in m && m[p] == ZeroPage() && IsPath(path)
    ensures Walk(m, p, path) == ZERO
  {
  }

  /** Linking a fresh empty table changes no translation. */
  lemma {:induction false} LinkKeepsWalks(m: Phys, root: int, tables: Tables, slots: set<int>,
                                          t0: int, i: int, p: int, t: int, path: seq<int>)
    requires Tree(m, root, tables, slots)
    requires t0 in tables && Governed(tables, t0, i, slots) && !m[t0][i].present
    requires PageAddr(p) && p in m && p !in tables
    requires Reaches(tables, t, path, slots)
    ensures Walk(Linked(m, t0, i, p), t, path) == Walk(m, t, path)
    decreases |path|
  {
    var m': Phys := Linked(m, t0, i, p);
    if |path| == 1 {
      assert t != t0;
    } else if t == t0 && path[0] == i {
      ZeroTable(m', p, path[1..]);
    } else if m[t][path[0]].present {
      Descend(m, root, tables, slots, t, path);
      LinkKeepsWalks(m, root, tables, slots, t0, i, p, m[t][path[0]].page, path[1..]);
    }
  }

  lemma LinkKeepsTranslations(m: Phys, root: int, tables: Tables, slots: set<int>, t0: int, i: int, p: int)
    requires Tree(m, root, tables, slots)
    requires t0 in tables && Governed(tables, t0, i, slots) && !m[t0][i].present
    requires PageAddr(p) && p in m && p !in tables
    ensures SameTranslations(m, Linked(m, t0, i, p), root, slots)
  {
    forall path | LeafPath(path, slots)
      ensures Walk(Linked(m, t0, i, p), root, path) == Walk(m, root, path)
    {
      LinkKeepsWalks(m, root, tables, slots, t0, i, p, root, path);
    }
  }

  /** Linking a fresh empty table keeps the tree shape, with the new table labelled. */
  lemma LinkKeepsTree(m: Phys, root: int, tables: Tables, slots: set<int>, t0: int, i: int, p: int)
    requires Tree(m, root, tables, slots)
    requires t0 in tables && Governed(tables, t0, i, slots) && !m[t0][i].present
    requires PageAddr(p) && p in m && p !in tables
    ensures Tree(Linked(m, t0, i, p), root, tables[p := tables[t0] + [i]], slots)
  {
  }

  /** `m'` translates `path` by entry `e` and every other governed page as `m` does. */
  ghost predicate OneTranslation(m: Phys, m': Phys, root: int, slots: set<int>, path: seq<int>, e: Word) {
    forall q :: LeafPath(q, slots) ==> Walk(m', root, q) == if q == path then e else Walk(m, root, q)
  }

  /** Writing the leaf slot of a path keeps the tree and changes that translation alone. */
  lemma LeafWriteTranslates(m: Phys, root: int, tables: Tables, slots: set<int>, path: seq<int>, e: Word)
    requires Tree(m, root, tables, slots)
    requires LeafPath(path, slots) && Missing(m, root, path) == 0
    ensures var l := LeafTable(m, root, path);
            && l in tables
            && Tree(m[l := m[l][path[3] := e]], root, tables, slots)
            && OneTranslation(m, m[l := m[l][path[3] := e]], root, slots, path, e)
  {
    LeafTablePrefix(m, root, tables, slots, path);
    var l := LeafTable(m, root, path);
    var m' := m[l := m[l][path[3] := e]];
    forall q | LeafPath(q, slots)
      ensures Walk(m', root, q) == if q == path then e else Walk(m, root, q)
    {
      LeafWrite(m, root, tables, slots, l, path[3], e, root, q);
      if Missing(m, root, q) == 0 && LeafTable(m, root, q) == l && q[3] == path[3] {
        LeafTablePrefix(m, root, tables, slots, q);
        assert q == q[..3] + [q[3]] && path == path[..3] + [path[3]];
      }
    }
  }

  ghost predicate IsSuffix(s: seq<int>, t: seq<int>) {
    |s| <= |t| && s == t[|t| - |s|..]
  }

  /** How creating tables may change memory: new tables come from the front of the free
      list, pages that are not tables keep their contents, present entries stay, and no
      translation changes. */
  ghost predicate Extends(m: Phys, tables: Tables, free: seq<int>, m': Phys, tables': Tables, free': seq<int>,
                          root: int, slots: set<int>)
  {
    && Pages(m) && Pages(m') && m'.Keys == m.Keys && (forall t :: t in tables ==> t in m)
    && IsSuffix(free', free)
    && (forall t :: t in tables ==> t in tables' && tables'[t] == tables[t])
    && (forall t :: t in tables' ==> t in tables || t in free)
    && (forall p :: p in m && p !in tables' ==> m'[p] == m[p])
    && (forall t, i :: t in tables && 0 <= i < ENTRIES && m[t][i].present ==> m'[t][i] == m[t][i])
    && SameTranslations(m, m', root, slots)
  }

  /** The part of `Extends` that a leaf write keeps: only table pages change. */
  ghost predicate OnlyTables(m: Phys, tables: Tables, free: seq<int>, m': Phys, tables': Tables, free': seq<int>) {
    && m'.Keys == m.Keys
    && IsSuffix(free', free)
    && (forall t :: t in tables ==> t in tables')
    && (forall t :: t in tables' ==> t in tables || t in free)
    && (forall p :: p in m && p !in tables' ==> m'[p] == m[p])
  }

  lemma ExtendsTransitive(m: Phys, tables: Tables, free: seq<int>, m1: Phys, tables1: Tables, free1: seq<int>,
                          m2: Phys, tables2: Tables, free2: seq<int>, root: int, slots: set<int>)
    requires Extends(m, tables, free, m1, tables1, free1, root, slots)
    requires Extends(m1, tables1, free1, m2, tables2, free2, root, slots)
    ensures Extends(m, tables, free, m2, tables2, free2, root, slots)
  {
  }

  lemma LinkExtends(m: Phys, root: int, tables: Tables, slots: set<int>, t0: int, i: int, free: seq<int>)
    requires Tree(m, root, tables, slots)
    requires t0 in tables && Governed(tables, t0, i, slots) && !m[t0][i].present
    requires free != [] && PageAddr(free[0]) && free[0] in m && free[0] !in tables
    ensures var p := free[0];
            Extends(m, tables, free, Linked(m, t0, i, p), tables[p := tables[t0] + [i]], free[1..], root, slots)
  {
    LinkKeepsTranslations(m, root, tables, slots, t0, i, free[0]);
  }

  lemma NothingExtends(m: Phys, tables: Tables, free: seq<int>, root: int, slots: set<int>)
    requires Pages(m) && forall t :: t in tables ==> t in m
    ensures Extends(m, tables, free, m, tables, free, root, slots)
  {
  }

  // ----- every table is linked, and what that says about missing tables -----

  /** Slot i of table t is a present entry for page p. */
  ghost predicate ParentOf(m: Phys, tables: Tables, slots: set<int>, t: int, i: int, p: int) {
    && t in tables && Governed(tables, t, i, slots) && t in m && |m[t]| == ENTRIES
    && m[t][i].present && m[t][i].page == p
  }

  ghost predicate HasParent(m: Phys, tables: Tables, slots: set<int>, p: int) {
    exists t, i :: ParentOf(m, tables, slots, t, i, p)
  }

  ghost predicate ShowLinks(k: int) { true }

  /** Every table but the root is the target of a present entry of another table; kept folded. */
  ghost predicate AllLinked(m: Phys, root: int, tables: Tables, slots: set<int>) {
    forall k {:trigger ShowLinks(k)} :: ShowLinks(k) ==>
      forall p :: p in tables && p != root ==> HasParent(m, tables, slots, p)
  }

  lemma SameLinked(m: Phys, m': Phys, root: int, tables: Tables, slots: set<int>)
    requires AllLinked(m, root, tables, slots) && forall x :: x in tables && x in m ==> x in m' && m'[x] == m[x]
    ensures AllLinked(m', root, tables, slots)
  {
    assert ShowLinks(0);
    forall p | p in tables && p != root
      ensures HasParent(m', tables, slots, p)
    {
      var t, i :| ParentOf(m, tables, slots, t, i, p);
      assert ParentOf(m', tables, slots, t, i, p);
    }
  }

  /** A leaf slot is nobody's parent entry, so writing one unlinks no table. */
  lemma LeafWriteLinked(m: Phys, root: int, tables: Tables, slots: set<int>, l: int, i: int, e: Word)
    requires AllLinked(m, root, tables, slots) && l in tables && |tables[l]| == 3 && l in m && 0 <= i < |m[l]|
    ensures AllLinked(m[l := m[l][i := e]], root, tables, slots)
  {
    assert ShowLinks(0);
    var m': Phys := m[l := m[l][i := e]];
    forall p | p in tables && p != root
      ensures HasParent(m', tables, slots, p)
    {
      var t, j :| ParentOf(m, tables, slots, t, j, p);
      assert ParentOf(m', tables, slots, t, j, p);
    }
  }

  /** Linking a fresh table links it and unlinks no other. */
  lemma LinkLinked(m: Phys, root: int, tables: Tables, slots: set<int>, t0: int, i: int, p: int)
    requires Tree(m, root, tables, slots) && AllLinked(m, root, tables, slots)
    requires t0 in tables && Governed(tables, t0, i, slots) && !m[t0][i].present
    requires PageAddr(p) && p in m && p !in tables
    ensures AllLinked(Linked(m, t0, i, p), root, tables[p := tables[t0] + [i]], slots)
  {
    assert ShowLinks(0);
    var m': Phys, tables' := Linked(m, t0, i, p), tables[p := tables[t0] + [i]];
    assert ParentOf(m', tables', slots, t0, i, p);
    forall x | x in tables && x != root
      ensures HasParent(m', tables', slots, x)
    {
      var t, j :| ParentOf(m, tables, slots, t, j, x);
      assert ParentOf(m', tables', slots, t, j, x);
    }
  }

  /** What is missing on a path below a table it passes through is what is missing on it. */
  lemma {:induction false} MissingFrom(m: Phys, root: int, tables: Tables, slots: set<int>, t: int, q: seq<int>)
    requires Tree(m, root, tables, slots) && AllLinked(m, root, tables, slots) && LeafPath(q, slots)
    requires t in tables && q[..|tables[t]|] == tables[t]
    ensures Missing(m, root, q) == Missing(m, t, q[|tables[t]|..])
    decreases |tables[t]|
  {
    assert ShowLinks(0);
    if t == root {
      assert q[0..] == q;
    } else {
      var u, i :| ParentOf(m, tables, slots, u, i, t);
      var d := |tables[u]|;
      assert tables[t] == tables[u] + [i];
      assert q[..d] == tables[t][..d] == tables[u];
      assert q[d] == tables[t][d] == i;
      MissingFrom(m, root, tables, slots, u, q);
      assert q[d..][0] == i && q[d..][1..] == q[d + 1..];
    }
  }

  function Least(a: int, b: int): int { if a < b then a else b }

  predicate StartsWith(q: seq<int>, prefix: seq<int>) {
    |prefix| <= |q| && q[..|prefix|] == prefix
  }

  /** The table for `prefix` exists in m', and nothing else changed about missing tables. */
  ghost predicate Opened(m: Phys, m': Phys, root: int, slots: set<int>, prefix: seq<int>) {
    forall q :: LeafPath(q, slots) ==>
      Missing(m', root, q) == if StartsWith(q, prefix) then Least(Missing(m, root, q), 3 - |prefix|) else Missing(m, root, q)
  }

  /** Missing tables created, and then one leaf slot written. */
  lemma CreatedAndWritten(m: Phys, tables: Tables, free: seq<int>, m1: Phys, tables1: Tables, free1: seq<int>, m2: Phys,
                          root: int, slots: set<int>, path: seq<int>, table: int, e: Word)
    requires Extends(m, tables, free, m1, tables1, free1, root, slots) && |path| == 4 && OpenedPath(m, m1, root, slots, path)
    requires table in tables1 && table in m1 && m2.Keys == m1.Keys && m2 == m1[table := m2[table]]
    requires OneTranslation(m1, m2, root, slots, path, e) && SameMissing(m1, m2, root, slots)
    ensures OnlyTables(m, tables, free, m2, tables1, free1)
    ensures OneTranslation(m, m2, root, slots, path, e) && OpenedPath(m, m2, root, slots, path)
  {
  }

  /** Paths through the same three tables miss the same ones. */
  lemma SharedMisses(m: Phys, root: int, p: seq<int>, q: seq<int>)
    requires IsPath(p) && IsPath(q) && |p| == |q| == 4 && Common(p, q) == 3
    ensures Missing(m, root, p) == Missing(m, root, q)
  {
    assert p[0] == p[..3][0] && p[1] == p[..3][1] && p[2] == p[..3][2];
    assert q[0] == q[..3][0] && q[1] == q[..3][1] && q[2] == q[..3][2];
    Resolve(m, root, p);
    Resolve(m, root, q);
  }

  /** How many tables two paths share below the root. */
  function Common(p: seq<int>, q: seq<int>): int
    requires |p| == |q| == 4
  {
    if p[..3] == q[..3] then 3 else if p[..2] == q[..2] then 2 else if p[..1] == q[..1] then 1 else 0
  }

  /** Every table of `path` exists in m', and nothing else changed about missing tables. */
  ghost predicate OpenedPath(m: Phys, m': Phys, root: int, slots: set<int>, path: seq<int>)
    requires |path| == 4
  {
    forall q :: LeafPath(q, slots) ==> Missing(m', root, q) == Least(Missing(m, root, q), 3 - Common(path, q))
  }

  /** No table comes or goes. */
  ghost predicate SameMissing(m: Phys, m': Phys, root: int, slots: set<int>) {
    forall q :: LeafPath(q, slots) ==> Missing(m', root, q) == Missing(m, root, q)
  }

  lemma LeafWriteMissing(m: Phys, root: int, tables: Tables, slots: set<int>, path: seq<int>, e: Word)
    requires Tree(m, root, tables, slots) && LeafPath(path, slots) && Missing(m, root, path) == 0
    ensures var l := LeafTable(m, root, path); l in m && path[3] < |m[l]| && SameMissing(m, m[l := m[l][path[3] := e]], root, slots)
  {
    LeafTablePrefix(m, root, tables, slots, path);
    var l := LeafTable(m, root, path);
    forall q | LeafPath(q, slots)
      ensures Missing(m[l := m[l][path[3] := e]], root, q) == Missing(m, root, q)
    {
      LeafWrite(m, root, tables, slots, l, path[3], e, root, q);
    }
  }

  /** A present entry: its table was there already. */
  lemma PresentOpens(m: Phys, root: int, tables: Tables, slots: set<int>, t: int, i: int)
    requires Tree(m, root, tables, slots) && AllLinked(m, root, tables, slots)
    requires t in tables && Governed(tables, t, i, slots) && m[t][i].present
    ensures Opened(m, m, root, slots, tables[t] + [i])
  {
    var c := m[t][i].page;
    forall q | LeafPath(q, slots) && StartsWith(q, tables[t] + [i])
      ensures Missing(m, root, q) <= 2 - |tables[t]|
    {
      MissingFrom(m, root, tables, slots, c, q);
      MissingBound(m, c, q[|tables[t]| + 1..]);
    }
  }

  lemma {:induction false} MissingBound(m: Phys, t: int, path: seq<int>)
    ensures path != [] ==> Missing(m, t, path) <= |path| - 1
    decreases |path|
  {
    if |path| > 1 {
      MissingBound(m, Slot(m, t, path[0]).page, path[1..]);
    }
  }

  /** Paths that do not pass through the fresh table miss what they missed. */
  lemma {:induction false} LinkKeepsMissing(m: Phys, root: int, tables: Tables, slots: set<int>,
                                            t0: int, i: int, p: int, t: int, path: seq<int>)
    requires Tree(m, root, tables, slots)
    requires t0 in tables && Governed(tables, t0, i, slots) && !m[t0][i].present
    requires PageAddr(p) && p in m && p !in tables
    requires Reaches(tables, t, path, slots) && !StartsWith(tables[t] + path, tables[t0] + [i])
    ensures Missing(Linked(m, t0, i, p), t, path) == Missing(m, t, path)
    decreases |path|
  {
    var m': Phys := Linked(m, t0, i, p);
    if |path| > 1 {
      assert (tables[t] + path)[..|tables[t]| + 1] == tables[t] + [path[0]];
      if m[t][path[0]].present {
        Descend(m, root, tables, slots, t, path);
        LinkKeepsMissing(m, root, tables, slots, t0, i, p, m[t][path[0]].page, path[1..]);
      }
    }
  }

  lemma LinkOpens(m: Phys, root: int, tables: Tables, slots: set<int>, t0: int, i: int, p: int)
    requires Tree(m, root, tables, slots) && AllLinked(m, root, tables, slots)
    requires t0 in tables && Governed(tables, t0, i, slots) && !m[t0][i].present
    requires PageAddr(p) && p in m && p !in tables
    ensures Opened(m, Linked(m, t0, i, p), root, slots, tables[t0] + [i])
  {
    var m': Phys, prefix := Linked(m, t0, i, p), tables[t0] + [i];
    LinkKeepsTree(m, root, tables, slots, t0, i, p);
    LinkLinked(m, root, tables, slots, t0, i, p);
    forall q | LeafPath(q, slots)
      ensures Missing(m', root, q) == if StartsWith(q, prefix) then Least(Missing(m, root, q), 3 - |prefix|) else Missing(m, root, q)
    {
      if StartsWith(q, prefix) {
        LinkOpensPath(m, root, tables, slots, t0, i, p, q);
      } else {
        assert tables[root] + q == q;
        LinkKeepsMissing(m, root, tables, slots, t0, i, p, root, q);
      }
    }
  }

  lemma LinkOpensPath(m: Phys, root: int, tables: Tables, slots: set<int>, t0: int, i: int, p: int, q: seq<int>)
    requires Tree(m, root, tables, slots) && AllLinked(m, root, tables, slots)
    requires t0 in tables && Governed(tables, t0, i, slots) && !m[t0][i].present
    requires PageAddr(p) && p in m && p !in tables
    requires LeafPath(q, slots) && StartsWith(q, tables[t0] + [i])
    ensures Missing(m, root, q) == 3 - |tables[t0]| && Missing(Linked(m, t0, i, p), root, q) == 2 - |tables[t0]|
  {
    var m': Phys, d := Linked(m, t0, i, p), |tables[t0]|;
    LinkKeepsTree(m, root, tables, slots, t0, i, p);
    LinkLinked(m, root, tables, slots, t0, i, p);
    assert q[..d] == (tables[t0] + [i])[..d] == tables[t0];
    assert q[d] == (tables[t0] + [i])[d] == i;
    MissingFrom(m, root, tables, slots, t0, q);
    assert q[d..][0] == i;
    MissingFrom(m', root, tables[p := tables[t0] + [i]], slots, p, q);
  }

  lemma PathPrefixes(path: seq<int>)
    requires |path| == 4
    ensures [] + [path[0]] == path[..1] && path[..1] + [path[1]] == path[..2] && path[..2] + [path[2]] == path[..3]
    ensures path[1..][1..] == path[2..]
  {
  }

  /** Opening the three tables of a path one after the other. */
  lemma OpenedThrice(m: Phys, m1: Phys, m2: Phys, m3: Phys, root: int, slots: set<int>, path: seq<int>)
    requires LeafPath(path, slots)
    requires Opened(m, m1, root, slots, path[..1]) && Opened(m1, m2, root, slots, path[..2]) && Opened(m2, m3, root, slots, path[..3])
    ensures OpenedPath(m, m3, root, slots, path)
  {
    forall q | LeafPath(q, slots)
      ensures Missing(m3, root, q) == Least(Missing(m, root, q), 3 - Common(path, q))
    {
      assert path[..3][..2] == path[..2] && q[..3][..2] == q[..2] && path[..2][..1] == path[..1] && q[..2][..1] == q[..1];
      MissingBound(m, root, q);
    }
  }

  /** Going one level down, through an existing or a fresh empty table. */
  lemma OneLevelDown(m: Phys, m': Phys, t: int, next: int, path: seq<int>)
    requires IsPath(path) && |path| > 1
    requires Slot(m, t, path[0]).present ==> m' == m && next == Slot(m, t, path[0]).page
    requires !Slot(m, t, path[0]).present ==> next in m' && m'[next] == ZeroPage()
    ensures Missing(m', next, path[1..]) == Missing(m, t, path) - if Slot(m, t, path[0]).present then 0 else 1
  {
  }

  /** Spelling out a four-level lookup. */
  lemma Resolve(m: Phys, root: int, path: seq<int>)
    requires IsPath(path) && |path| == 4
    ensures var e4 := Slot(m, root, path[0]);
            var e3 := Slot(m, e4.page, path[1]);
            var e2 := Slot(m, e3.page, path[2]);
            && Missing(m, root, path) == (if !e4.present then 3 else if !e3.present then 2 else if !e2.present then 1 else 0)
            && (Missing(m, root, path) == 0 ==> LeafTable(m, root, path) == e2.page)
  {
    var e4 := Slot(m, root, path[0]);
    var e3 := Slot(m, e4.page, path[1]);
    var e2 := Slot(m, e3.page, path[2]);
    var p1, p2, p3 := path[1..], path[2..], path[3..];
    assert p1[1..] == p2 && p2[1..] == p3;
    assert Missing(m, e3.page, p2) == if e2.present then Missing(m, e2.page, p3) else 1;
    assert Missing(m, e4.page, p1) == if e3.present then Missing(m, e3.page, p2) else 2;
    assert LeafTable(m, e3.page, p2) == LeafTable(m, e2.page, p3);
    assert LeafTable(m, e4.page, p1) == LeafTable(m, e3.page, p2);
  }

  /** A path whose upper two entries were there before the last table was made resolves. */
  lemma Resolved(m: Phys, tables: Tables, free: seq<int>, m': Phys, tables': Tables, free': seq<int>,
                 root: int, slots: set<int>, pdpt: int, pd: int, pt: int, path: seq<int>)
    requires Extends(m, tables, free, m', tables', free', root, slots)
    requires IsPath(path) && |path| == 4 && root in tables && pdpt in tables && pd in m'
    requires m[root][path[0]].present && m[root][path[0]].page == pdpt
    requires m[pdpt][path[1]].present && m[pdpt][path[1]].page == pd
    requires m'[pd][path[2]].present && m'[pd][path[2]].page == pt
    ensures Missing(m', root, path) == 0 && LeafTable(m', root, path) == pt
  {
    assert m'[root][path[0]] == m[root][path[0]] && m'[pdpt][path[1]] == m[pdpt][path[1]];
    Resolve(m', root, path);
  }

  /** The four table indices of a virtual address. */
  function PathOf(virt: int): (path: seq<int>)
    ensures |path| == 4
    ensures IsPath(path)
  {
    [virt / 0x80_0000_0000 % 512, virt / 0x4000_0000 % 512, virt / 0x20_0000 % 512, virt / 0x1000 % 512]
  }

  /** The 36-bit page number of a virtual address. */
  function PageNumber(virt: int): int { virt / 4096 % 0x10_0000_0000 }

  /** Splitting a page number into its low nine bits and the rest. */
  lemma LowIndex(n: int, k: int)
    requires k > 0
    ensures n % (512 * k) == n / 512 % k * 512 + n % 512
  {
    var q := n / 512;
    assert q == k * (q / k) + q % k;
    assert n == (q / k) * (512 * k) + (q % k * 512 + n % 512) by {
      assert 512 * (k * (q / k)) == (q / k) * (512 * k);
    }
    Unique(n, 512 * k, q / k, q % k * 512 + n % 512);
  }

  lemma PathOfPageNumber(virt: int)
    ensures PageNumber(virt) ==
            PathOf(virt)[0] * 0x800_0000 + PathOf(virt)[1] * 0x4_0000 + PathOf(virt)[2] * 512 + PathOf(virt)[3]
  {
    var n := virt / 4096;
    var a := n / 512;
    var b := a / 512;
    assert virt / 0x20_0000 == a;
    assert virt / 0x4000_0000 == b;
    assert virt / 0x80_0000_0000 == b / 512;
    LowIndex(n, 0x800_0000);
    LowIndex(a, 0x4_0000);
    LowIndex(b, 512);
  }

  lemma SameDigits(p: seq<int>, q: seq<int>)
    requires IsPath(p) && IsPath(q) && |p| == |q| == 4
    requires p[0] * 0x800_0000 + p[1] * 0x4_0000 + p[2] * 512 + p[3] == q[0] * 0x800_0000 + q[1] * 0x4_0000 + q[2] * 512 + q[3]
    ensures p == q
  {
    assert p[0] == q[0] && p[1] == q[1] && p[2] == q[2];
  }

  /** Paths and 36-bit page numbers name the same thing. */
  lemma PathsArePageNumbers(u: int, v: int)
    ensures PathOf(u) == PathOf(v) <==> PageNumber(u) == PageNumber(v)
  {
    PathOfPageNumber(u);
    PathOfPageNumber(v);
    if PageNumber(u) == PageNumber(v) {
      SameDigits(PathOf(u), PathOf(v));
    }
  }
}
