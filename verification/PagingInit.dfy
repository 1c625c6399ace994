/** The kernel's page tables as boot makes them (paging_init() of threads/init.c): a mapping of
    all of memory 3 GB above its physical addresses, for the kernel alone. */
module PagingInit {
  import opened Common
  import opened Mmu
  import opened PageDir
  import opened Palloc

  /** Pages of memory below 1 GB. */
  const MAX_PAGES: int := 262144

  function Vaddr(page: nat): (va: Word)
    requires page < MAX_PAGES
    ensures IsKernelPage(va)
  {
    Ptov(page * PGSIZE)
  }

  predicate InText(va: Word, textStart: Word, textEnd: Word) {
    textStart <= va < textEnd
  }

  function InitPte(page: nat, textStart: Word, textEnd: Word): Word
    requires page < MAX_PAGES
  {
    PteCreateKernel(Vaddr(page), !InText(Vaddr(page), textStart, textEnd))
  }

  /** The page tables for the first n pages. */
  function TableCount(n: nat): nat {
    (n + 1023) / 1024
  }

  lemma Indices(page: nat)
    requires page < MAX_PAGES
    ensures PdNo(Vaddr(page)) == USER_ENTRIES + page / 1024 && PtNo(Vaddr(page)) == page % 1024 && page / 1024 < 256
    ensures TableCount(page + 1) == page / 1024 + 1 && TableCount(page) == page / 1024 + (if page % 1024 == 0 then 0 else 1)
  {
    hide IsKernelPage;
    var q, r := page / 1024, page % 1024;
    assert page == 1024 * q + r;
    assert Vaddr(page) == 4194304 * (768 + q) + 4096 * r;
    assert Vaddr(page) / 4096 == 1024 * (768 + q) + r;
  }

  /** Page table k, which is allocated after the directory and those before it. */
  function TablePage(pages: seq<Word>, k: nat): Word
    requires k + 1 < |pages|
  {
    pages[k + 1]
  }

  /** Page a is the directory or one of the first m page tables. */
  ghost predicate Used(pages: seq<Word>, m: nat, a: Word)
    requires |pages| > m
  {
    a == pages[0] || exists k :: 0 <= k < m && a == TablePage(pages, k)
  }

  /** The directory with m page tables, which, with it, are all there is. */
  ghost predicate DirBuilt(tables: Tables, pages: seq<Word>, m: nat)
    requires m <= 256 && |pages| > m && forall p :: p in pages ==> IsKernelPage(p)
  {
    && pages[0] in tables && |tables[pages[0]]| == ENTRIES
    && (forall i :: 0 <= i < ENTRIES ==>
          tables[pages[0]][i] == if USER_ENTRIES <= i < USER_ENTRIES + m then PdeCreate(TablePage(pages, i - USER_ENTRIES)) else 0)
    && (forall a :: a in tables ==> Used(pages, m, a))
  }

  /** Page table k maps the first n pages of memory, as far as they are its own. */
  ghost predicate TableBuilt(table: seq<Word>, k: nat, n: nat, textStart: Word, textEnd: Word)
    requires n <= MAX_PAGES
  {
    && |table| == ENTRIES
    && forall j :: 0 <= j < ENTRIES ==> table[j] == if 1024 * k + j < n then InitPte(1024 * k + j, textStart, textEnd) else 0
  }

  ghost predicate TablesBuilt(tables: Tables, pages: seq<Word>, m: nat, n: nat, textStart: Word, textEnd: Word)
    requires |pages| > m && n <= MAX_PAGES
  {
    forall k :: 0 <= k < m ==> TablePage(pages, k) in tables && TableBuilt(tables[TablePage(pages, k)], k, n, textStart, textEnd)
  }

  lemma PageFacts(pages: seq<Word>, m: nat)
    requires |pages| > m && NoDuplicates(pages) && forall p :: p in pages ==> IsKernelPage(p)
    ensures forall k :: 0 <= k < m ==> TablePage(pages, k) != pages[0] && IsKernelPage(TablePage(pages, k))
    ensures forall k, l :: 0 <= k < m && 0 <= l < m && TablePage(pages, k) == TablePage(pages, l) ==> k == l
  {
    hide IsKernelPage;
  }

  /** A new page table, at the first page that belongs to it. */
  lemma TableMade(tables: Tables, pages: seq<Word>, page: nat, textStart: Word, textEnd: Word)
    requires page < MAX_PAGES && page % 1024 == 0 && |pages| > page / 1024 + 1
    requires NoDuplicates(pages) && forall p :: p in pages ==> IsKernelPage(p)
    requires DirBuilt(tables, pages, page / 1024) && TablesBuilt(tables, pages, page / 1024, page, textStart, textEnd)
    ensures TablePage(pages, page / 1024) !in tables && TablePage(pages, page / 1024) != pages[0]
    ensures var tables1 := WithTable(tables, pages[0], USER_ENTRIES + page / 1024, TablePage(pages, page / 1024));
            DirBuilt(tables1, pages, page / 1024 + 1) && TablesBuilt(tables1, pages, page / 1024 + 1, page, textStart, textEnd)
  {
    hide NoDuplicates, IsKernelPage, TableBuilt, TablesBuilt, PdeCreate;
    var m := page / 1024;
    PageFacts(pages, m + 1);
    assert !Used(pages, m, TablePage(pages, m));
    DirExtended(tables, pages, m);
    TablesExtended(tables, pages, m, page, textStart, textEnd);
  }

  lemma DirExtended(tables: Tables, pages: seq<Word>, m: nat)
    requires m < 256 && |pages| > m + 1 && forall p :: p in pages ==> IsKernelPage(p)
    requires DirBuilt(tables, pages, m) && TablePage(pages, m) != pages[0]
    ensures DirBuilt(WithTable(tables, pages[0], USER_ENTRIES + m, TablePage(pages, m)), pages, m + 1)
  {
    hide IsKernelPage, PdeCreate, ZeroTable;
    assert Used(pages, m + 1, TablePage(pages, m));
    assert forall a :: Used(pages, m, a) ==> Used(pages, m + 1, a);
    hide Used;
  }

  lemma TablesExtended(tables: Tables, pages: seq<Word>, m: nat, page: nat, textStart: Word, textEnd: Word)
    requires page < MAX_PAGES && page == 1024 * m && |pages| > m + 1 && TablePage(pages, m) !in tables && TablePage(pages, m) != pages[0]
    requires pages[0] in tables && USER_ENTRIES + m < |tables[pages[0]]| && IsKernelPage(TablePage(pages, m))
    requires forall k :: 0 <= k < m ==> TablePage(pages, k) != pages[0]
    requires TablesBuilt(tables, pages, m, page, textStart, textEnd)
    ensures TablesBuilt(WithTable(tables, pages[0], USER_ENTRIES + m, TablePage(pages, m)), pages, m + 1, page, textStart, textEnd)
  {
    hide IsKernelPage, PdeCreate, InitPte;
    var tables1 := WithTable(tables, pages[0], USER_ENTRIES + m, TablePage(pages, m));
    assert TableBuilt(tables1[TablePage(pages, m)], m, page, textStart, textEnd);
    hide TableBuilt;
  }

  /** One entry more. */
  lemma EntryMade(tables: Tables, pages: seq<Word>, page: nat, textStart: Word, textEnd: Word)
    requires page < MAX_PAGES && |pages| > page / 1024 + 1
    requires NoDuplicates(pages) && forall p :: p in pages ==> IsKernelPage(p)
    requires DirBuilt(tables, pages, page / 1024 + 1) && TablesBuilt(tables, pages, page / 1024 + 1, page, textStart, textEnd)
    ensures var pt := TablePage(pages, page / 1024);
            && pt in tables && |tables[pt]| == ENTRIES
            && var tables1 := Write(tables, pt, page % 1024, InitPte(page, textStart, textEnd));
               DirBuilt(tables1, pages, page / 1024 + 1) && TablesBuilt(tables1, pages, page / 1024 + 1, page + 1, textStart, textEnd)
  {
    hide IsKernelPage, InitPte, PdeCreate;
    var m := page / 1024;
    PageFacts(pages, m + 1);
    var pt := TablePage(pages, m);
    assert TableBuilt(tables[pt], m, page, textStart, textEnd);
    var tables1 := Write(tables, pt, page % 1024, InitPte(page, textStart, textEnd));
    forall k | 0 <= k < m + 1
      ensures TablePage(pages, k) in tables1 && TableBuilt(tables1[TablePage(pages, k)], k, page + 1, textStart, textEnd)
    {
      assert TableBuilt(tables[TablePage(pages, k)], k, page, textStart, textEnd);
      TableKept(tables[TablePage(pages, k)], k, page, textStart, textEnd);
    }
  }

  lemma TableKept(table: seq<Word>, k: nat, page: nat, textStart: Word, textEnd: Word)
    requires page < MAX_PAGES && TableBuilt(table, k, page, textStart, textEnd)
    ensures k != page / 1024 ==> TableBuilt(table, k, page + 1, textStart, textEnd)
    ensures k == page / 1024 ==> TableBuilt(table[page % 1024 := InitPte(page, textStart, textEnd)], k, page + 1, textStart, textEnd)
  {
    hide InitPte;
    assert page == 1024 * (page / 1024) + page % 1024;
  }

  /** The page of the directory's entry for kernel table k. */
  lemma PdeOfTable(pages: seq<Word>, k: nat)
    requires k + 1 < |pages| && forall p :: p in pages ==> IsKernelPage(p)
    ensures var pde := PdeCreate(TablePage(pages, k));
            && Reaches(pde) && PdeGetPt(pde) == TablePage(pages, k) && pde != 0
            && pde % 2 == 1 && pde / 2 % 2 == 1 && pde / 4 % 2 == 1 && pde - pde % 4096 + 0xc000_0000 == TablePage(pages, k)
  {
    hide Reaches, PdeGetPt, PdeCreate;
    assert IsKernelPage(TablePage(pages, k));
    EntryRoundTrip(TablePage(pages, k), true);
    FlagsSet(PdeCreate(TablePage(pages, k)));
    PdePage(PdeCreate(TablePage(pages, k)));
  }

  lemma InitEntry(page: nat, textStart: Word, textEnd: Word)
    requires page < MAX_PAGES
    ensures var pte := InitPte(page, textStart, textEnd);
            && pte % 2 == 1 && pte / 2 % 2 == (if InText(Vaddr(page), textStart, textEnd) then 0 else 1) && pte / 4 % 2 == 0
            && pte - pte % 4096 == 4096 * page && Reaches(pte)
  {
    hide Reaches, PteCreateKernel;
    KernelEntry(Vaddr(page), !InText(Vaddr(page), textStart, textEnd));
  }

  /** What the processor makes of the finished tables. */
  lemma KernelMapped(tables: Tables, pages: seq<Word>, n: nat, textStart: Word, textEnd: Word, va: Word)
    requires n <= MAX_PAGES && |pages| > TableCount(n) && forall p :: p in pages ==> IsKernelPage(p)
    requires TableCount(n) <= 256 && DirBuilt(tables, pages, TableCount(n)) && TablesBuilt(tables, pages, TableCount(n), n, textStart, textEnd)
    ensures Walk(tables, pages[0], va) ==
              if 0xc000_0000 <= va < 0xc000_0000 + 4096 * n
              then Byte(va - 0xc000_0000, false, !(textStart <= va - va % 4096 < textEnd)) else Fault
  {
    hide PdeCreate, InitPte, IsKernelPage, Reaches, PdeGetPt, TableBuilt;
    var m, i := TableCount(n), va / 4194304;
    var pde := WordAt(tables, pages[0], i);
    if USER_ENTRIES <= i < USER_ENTRIES + m {
      var k := i - USER_ENTRIES;
      PdeOfTable(pages, k);
      var page := va / 4096 - 786432;
      PageIndex(va, k);
      var table := tables[TablePage(pages, k)];
      EntryOf(table, k, n, textStart, textEnd, page);
      assert WordAt(tables, TablePage(pages, k), va / 4096 % 1024) == table[page % 1024];
      if page < n {
        InitEntry(page, textStart, textEnd);
        assert Vaddr(page) == va - va % 4096;
      }
    } else {
      assert pde == 0;
    }
  }

  lemma PageIndex(va: Word, k: nat)
    requires va / 4194304 == USER_ENTRIES + k
    ensures va / 4096 - 786432 == 1024 * k + va / 4096 % 1024 && (va / 4096 - 786432) / 1024 == k
    ensures (va / 4096 - 786432) % 1024 == va / 4096 % 1024
  {
    var q := va / 4096;
    assert q / 1024 == USER_ENTRIES + k;
  }

  lemma EntryOf(table: seq<Word>, k: nat, n: nat, textStart: Word, textEnd: Word, page: nat)
    requires n <= MAX_PAGES && TableBuilt(table, k, n, textStart, textEnd) && page / 1024 == k
    ensures |table| == ENTRIES && table[page % 1024] == if page < n then InitPte(page, textStart, textEnd) else 0
  {
    hide InitPte;
    assert page == 1024 * k + page % 1024;
  }

  ghost function KernelPts(pages: seq<Word>, m: nat): set<Word>
    requires |pages| > m
  {
    set k: nat | k < m :: TablePage(pages, k)
  }

  lemma TableClosed(table: seq<Word>, k: nat, n: nat, textStart: Word, textEnd: Word)
    requires n <= MAX_PAGES && TableBuilt(table, k, n, textStart, textEnd)
    ensures Closed(table) && forall j :: 0 <= j < |table| && Present(table[j]) ==> Reaches(table[j])
  {
    hide InitPte, Reaches;
    ZeroReaches();
    forall j | 0 <= j < |table|
      ensures table[j] / 4 % 2 == 0 && (Present(table[j]) ==> Reaches(table[j]))
    {
      if 1024 * k + j < n {
        InitEntry(1024 * k + j, textStart, textEnd);
      }
    }
  }

  /** What the page directories rely on. */
  lemma KernelReady(tables: Tables, pages: seq<Word>, n: nat, textStart: Word, textEnd: Word)
    requires n <= MAX_PAGES && |pages| > TableCount(n) && NoDuplicates(pages) && forall p :: p in pages ==> IsKernelPage(p)
    requires TableCount(n) <= 256 && DirBuilt(tables, pages, TableCount(n)) && TablesBuilt(tables, pages, TableCount(n), n, textStart, textEnd)
    ensures DirsOk(tables, {pages[0]}) && PtesOk(tables, {pages[0]}) && NoUserEntries(tables, pages[0])
    ensures KernelOk(tables, {pages[0]}, pages[0], KernelPts(pages, TableCount(n)))
  {
    hide PdeCreate, InitPte, IsKernelPage, Reaches, PdeGetPt, TableBuilt, Closed, Present;
    var m, d := TableCount(n), pages[0];
    PageFacts(pages, m);
    ZeroReaches();
    forall k: nat | k < m
      ensures TablePage(pages, k) in tables && |tables[TablePage(pages, k)]| == ENTRIES && Closed(tables[TablePage(pages, k)])
      ensures forall j :: 0 <= j < ENTRIES && Present(tables[TablePage(pages, k)][j]) ==> Reaches(tables[TablePage(pages, k)][j])
    {
      TableClosed(tables[TablePage(pages, k)], k, n, textStart, textEnd);
      EntryOf(tables[TablePage(pages, k)], k, n, textStart, textEnd, 1024 * k);
    }
    forall i: Word | i < ENTRIES
      ensures i < USER_ENTRIES ==> Pde(tables, d, i) == 0
      ensures i >= USER_ENTRIES ==> KernelEntryOk(KernelPts(pages, m), Pde(tables, d, i))
    {
      if USER_ENTRIES <= i < USER_ENTRIES + m {
        PdeOfTable(pages, i - USER_ENTRIES);
      }
    }
  }

  /** paging_init(); pages is what palloc_get_page() returns, call by call. */
  method PagingInit(pages: seq<Word>, ramPages: nat, textStart: Word, textEnd: Word) returns (kernel: PageDirs)
    requires ramPages <= MAX_PAGES && |pages| > TableCount(ramPages)
    requires NoDuplicates(pages) && forall p :: p in pages ==> IsKernelPage(p)
    ensures fresh(kernel) && kernel.Valid() && kernel.initPageDir == pages[0] && kernel.dirs == {pages[0]}
    ensures forall va: Word :: Walk(kernel.tables, pages[0], va) ==
              if 0xc000_0000 <= va < 0xc000_0000 + 4096 * ramPages
              then Byte(va - 0xc000_0000, false, !(textStart <= va - va % 4096 < textEnd)) else Fault
  {
    hide PdeCreate, PteCreateKernel, IsKernelPage, NoDuplicates, Reaches, PdeGetPt, PdNo, PtNo, TablesBuilt, DirsOk, PtesOk, NoUserEntries,
      KernelOk, Walk;
    var pd, pt, made := pages[0], 0, 1;
    var tables: Tables := map[pd := ZeroTable()];
    Nothing(tables, pages, textStart, textEnd);
    var page := 0;
    while page < ramPages
      invariant 0 <= page <= ramPages && made == 1 + TableCount(page)
      invariant DirBuilt(tables, pages, TableCount(page)) && TablesBuilt(tables, pages, TableCount(page), page, textStart, textEnd)
      invariant page % 1024 != 0 ==> pt == pages[made - 1]
    {
      Indices(page);
      var vaddr := Vaddr(page);
      PdeMade(tables, pages, page);
      if tables[pd][PdNo(vaddr)] == 0 {
        TableMade(tables, pages, page, textStart, textEnd);
        pt := pages[made];
        made := made + 1;
        tables := WithTable(tables, pd, PdNo(vaddr), pt);
      }
      EntryMade(tables, pages, page, textStart, textEnd);
      tables := Write(tables, pt, PtNo(vaddr), PteCreateKernel(vaddr, !InText(vaddr, textStart, textEnd)));
      page := page + 1;
    }
    KernelReady(tables, pages, ramPages, textStart, textEnd);
    kernel := new PageDirs(pd, tables, KernelPts(pages, TableCount(ramPages)));
    forall va: Word
      ensures Walk(tables, pages[0], va) ==
                if 0xc000_0000 <= va < 0xc000_0000 + 4096 * ramPages
                then Byte(va - 0xc000_0000, false, !(textStart <= va - va % 4096 < textEnd)) else Fault
    {
      KernelMapped(tables, pages, ramPages, textStart, textEnd, va);
    }
  }

  lemma Nothing(tables: Tables, pages: seq<Word>, textStart: Word, textEnd: Word)
    requires |pages| > 0 && tables == map[pages[0] := ZeroTable()] && forall p :: p in pages ==> IsKernelPage(p)
    ensures DirBuilt(tables, pages, 0) && TablesBuilt(tables, pages, 0, 0, textStart, textEnd)
  {
    assert Used(pages, 0, pages[0]);
  }

  /** The test of the loop: whether the directory has the page table already. */
  lemma PdeMade(tables: Tables, pages: seq<Word>, page: nat)
    requires page < MAX_PAGES && |pages| > page / 1024 + 1 && forall p :: p in pages ==> IsKernelPage(p)
    requires TableCount(page) <= 256 && DirBuilt(tables, pages, TableCount(page))
    ensures |tables[pages[0]]| == ENTRIES
    ensures tables[pages[0]][USER_ENTRIES + page / 1024] == 0 <==> page % 1024 == 0
  {
    hide PdeCreate, IsKernelPage, Reaches, PdeGetPt;
    if page % 1024 != 0 {
      PdeOfTable(pages, page / 1024);
    }
  }
}
