/** Page directories (userprog/pagedir.c) over the entry formats of threads/pte.h and the
    addresses of threads/vaddr.h: a two-level table that is a partial map from pages to frames.
    Words and addresses are 32-bit numbers; a mask or shift is the division or remainder that it
    stands for, and OR-ing flags into a page-aligned address is adding them. */
module PageDir {
  import opened Common
  import opened Mmu
  import opened NonLinear
  import opened Palloc

  const PTE_P: int := 1
  const PTE_W: int := 2
  const PTE_U: int := 4

  /** Entries in a table, and those of a directory that map user addresses: pd_no (PHYS_BASE). */
  const ENTRIES: int := 1024
  const USER_ENTRIES: int := 768

  /** Bytes covered by a page table. */
  const PTSPAN: int := 4194304

  // ----- vaddr.h and pte.h -----

  function PgOfs(va: Word): Word {
    va % PGSIZE
  }

  function PtNo(va: Word): (i: Word)
    ensures i < ENTRIES
  {
    va / PGSIZE % ENTRIES
  }

  function PdNo(va: Word): (i: Word)
    ensures i < ENTRIES && (IsUserVaddr(va) <==> i < USER_ENTRIES)
  {
    va / PTSPAN
  }

  predicate IsUserVaddr(va: Word) {
    va < PHYS_BASE
  }

  /** A page that the kernel can reach. */
  predicate IsKernelPage(page: Word) {
    PHYS_BASE <= page && PgOfs(page) == 0
  }

  function Vtop(va: Word): Word
    requires PHYS_BASE <= va
  {
    va - PHYS_BASE
  }

  /** The source's assertion pa < PHYS_BASE leaves room for physical addresses that wrap; the
      kernel maps less than 1 GB. */
  function Ptov(pa: Word): Word
    requires pa < ADDRESS_LIMIT - PHYS_BASE
  {
    pa + PHYS_BASE
  }

  predicate Present(entry: Word) {
    entry % 2 == PTE_P
  }

  predicate Writable(entry: Word) {
    entry / 2 % 2 == 1
  }

  /** entry & PTE_ADDR */
  function AddressBits(entry: Word): (a: Word)
    ensures a % PGSIZE == 0
  {
    entry - entry % PGSIZE
  }

  /** The entry points to a page that the kernel can reach. */
  predicate Reaches(entry: Word) {
    Present(entry) && AddressBits(entry) < ADDRESS_LIMIT - PHYS_BASE
  }

  function PdeCreate(pt: Word): Word
    requires IsKernelPage(pt)
  {
    Vtop(pt) + PTE_U + PTE_P + PTE_W
  }

  function PdeGetPt(pde: Word): (pt: Word)
    requires Reaches(pde)
    ensures IsKernelPage(pt)
  {
    Ptov(AddressBits(pde))
  }

  function PteCreateKernel(page: Word, writable: bool): Word
    requires IsKernelPage(page)
  {
    Vtop(page) + PTE_P + (if writable then PTE_W else 0)
  }

  function PteCreateUser(page: Word, writable: bool): Word
    requires IsKernelPage(page)
  {
    PteCreateKernel(page, writable) + PTE_U
  }

  function PteGetPage(pte: Word): (page: Word)
    requires Reaches(pte)
    ensures IsKernelPage(page)
  {
    Ptov(AddressBits(pte))
  }

  /** An entry gives back the table or the page it was made for. */
  lemma EntryRoundTrip(page: Word, writable: bool)
    requires IsKernelPage(page)
    ensures PdeCreate(page) != 0 && Reaches(PdeCreate(page)) && PdeGetPt(PdeCreate(page)) == page && PdeCreate(page) % 8 == 7
    ensures Reaches(PteCreateUser(page, writable)) && PteGetPage(PteCreateUser(page, writable)) == page
    ensures Writable(PteCreateUser(page, writable)) == writable
  {
  }

  /** The two indices determine the page, and the page the two indices. */
  lemma SamePage(va: Word, vb: Word)
    ensures PageOf(va) == PageOf(vb) <==> PdNo(va) == PdNo(vb) && PtNo(va) == PtNo(vb)
  {
    DivDiv(va, PGSIZE, ENTRIES);
    DivDiv(vb, PGSIZE, ENTRIES);
    assert PGSIZE * ENTRIES == PTSPAN;
    assert PageOf(va) == PGSIZE * (va / PGSIZE) && PageOf(vb) == PGSIZE * (vb / PGSIZE);
  }

  // ----- tables in memory -----

  /** Entry i of directory d. */
  function Pde(tables: Tables, d: Word, i: Word): Word {
    if d in tables && i < |tables[d]| then tables[d][i] else 0
  }

  ghost predicate TablesOk(tables: Tables) {
    forall a :: a in tables ==> IsKernelPage(a) && |tables[a]| == ENTRIES
  }

  /** A directory entry for user addresses is zero or points to a page table, and leaves it to
      that who may do what. */
  ghost predicate EntryOk(tables: Tables, dirs: set<Word>, pde: Word) {
    pde != 0 ==> Reaches(pde) && PdeGetPt(pde) in tables && PdeGetPt(pde) !in dirs && pde % 8 == 7
  }

  /** The two entries are of different page tables. */
  ghost predicate Unshared(pde: Word, pde1: Word) {
    Reaches(pde) && Reaches(pde1) ==> PdeGetPt(pde) != PdeGetPt(pde1)
  }

  /** The directories have page tables of their own. */
  ghost predicate DirsOk(tables: Tables, dirs: set<Word>) {
    && TablesOk(tables) && (forall d :: d in dirs ==> d in tables)
    && (forall d, i :: d in dirs && 0 <= i < USER_ENTRIES ==> EntryOk(tables, dirs, Pde(tables, d, i)))
    && (forall d, i, e, j :: d in dirs && e in dirs && 0 <= i < USER_ENTRIES && 0 <= j < USER_ENTRIES && (d != e || i != j) ==>
          Unshared(Pde(tables, d, i), Pde(tables, e, j)))
  }

  /** The page table entry for va, or 0 where there is no page table. */
  function Pte(tables: Tables, d: Word, va: Word): Word {
    var pde := Pde(tables, d, PdNo(va));
    if pde == 0 || !Reaches(pde) then 0 else Pde(tables, PdeGetPt(pde), PtNo(va))
  }

  /** The frame to which directory d maps the page of va. */
  function Frame(tables: Tables, d: Word, va: Word): Option<Word> {
    var pte := Pte(tables, d, va);
    if Reaches(pte) then Some(PteGetPage(pte)) else None
  }

  // ----- one entry written -----

  function Write(tables: Tables, a: Word, i: Word, word: Word): Tables
    requires a in tables && i < |tables[a]|
  {
    var table: seq<Word> := tables[a][i := word];
    tables[a := table]
  }

  /** Writing an entry of a page table changes the entry for its own page of its own directory,
      and no other. */
  lemma PteWritten(tables: Tables, dirs: set<Word>, d: Word, upage: Word, word: Word, e: Word, va: Word)
    requires DirsOk(tables, dirs) && d in dirs && e in dirs && IsUserVaddr(upage) && IsUserVaddr(va) && Pde(tables, d, PdNo(upage)) != 0
    ensures Reaches(Pde(tables, d, PdNo(upage)))
    ensures var pt := PdeGetPt(Pde(tables, d, PdNo(upage)));
            && pt in tables && |tables[pt]| == ENTRIES
            && Pte(Write(tables, pt, PtNo(upage), word), e, va) == if e == d && PageOf(va) == PageOf(upage) then word else Pte(tables, e, va)
  {
    hide Reaches, PdeGetPt, IsKernelPage, PdNo, PtNo, PageOf;
    var pde, pde1 := Pde(tables, d, PdNo(upage)), Pde(tables, e, PdNo(va));
    assert EntryOk(tables, dirs, pde) && EntryOk(tables, dirs, pde1);
    var pt := PdeGetPt(pde);
    var tables1 := Write(tables, pt, PtNo(upage), word);
    assert Pde(tables1, e, PdNo(va)) == pde1;
    assert e != d || PdNo(va) != PdNo(upage) ==> Unshared(pde, pde1);
    SamePage(va, upage);
  }

  lemma PteWrittenOk(tables: Tables, dirs: set<Word>, a: Word, i: Word, word: Word)
    requires DirsOk(tables, dirs) && a in tables && a !in dirs && i < ENTRIES
    ensures DirsOk(Write(tables, a, i, word), dirs)
  {
    hide Reaches, PdeGetPt, IsKernelPage, Unshared;
    var tables1 := Write(tables, a, i, word);
    forall d, j: Word | d in dirs
      ensures Pde(tables1, d, j) == Pde(tables, d, j)
    {
    }
  }

  function ZeroTable(): (t: seq<Word>)
    ensures |t| == ENTRIES && forall i :: 0 <= i < ENTRIES ==> t[i] == 0
  {
    seq(ENTRIES, _ => 0)
  }

  /** The memory after lookup_page() has made page table pt for entry i of directory d. */
  function WithTable(tables: Tables, d: Word, i: Word, pt: Word): Tables
    requires d in tables && i < |tables[d]| && IsKernelPage(pt) && pt != d
  {
    Write(tables[pt := ZeroTable()], d, i, PdeCreate(pt))
  }

  /** A new, empty page table changes no translation. */
  lemma TableAdded(tables: Tables, dirs: set<Word>, d: Word, i: Word, pt: Word)
    requires DirsOk(tables, dirs) && d in dirs && i < USER_ENTRIES && Pde(tables, d, i) == 0 && IsKernelPage(pt) && pt !in tables
    ensures DirsOk(WithTable(tables, d, i, pt), dirs) && Pde(WithTable(tables, d, i, pt), d, i) == PdeCreate(pt)
    ensures forall e, va: Word :: e in dirs && IsUserVaddr(va) ==> Pte(WithTable(tables, d, i, pt), e, va) == Pte(tables, e, va)
  {
    EntryRoundTrip(pt, false);
    hide Reaches, PdeGetPt, PdeCreate, IsKernelPage, PdNo, PtNo;
    var tables1 := WithTable(tables, d, i, pt);
    assert tables1[pt] == ZeroTable();
    TableAddedOk(tables, dirs, d, i, pt);
    forall e, va: Word | e in dirs && IsUserVaddr(va)
      ensures Pte(tables1, e, va) == Pte(tables, e, va)
    {
      var pde, pde1 := Pde(tables, e, PdNo(va)), Pde(tables1, e, PdNo(va));
      assert EntryOk(tables, dirs, pde);
      assert (e == d && PdNo(va) == i) || pde1 == pde;
    }
  }

  lemma TableAddedOk(tables: Tables, dirs: set<Word>, d: Word, i: Word, pt: Word)
    requires DirsOk(tables, dirs) && d in dirs && i < USER_ENTRIES && Pde(tables, d, i) == 0 && IsKernelPage(pt) && pt !in tables
    requires Reaches(PdeCreate(pt)) && PdeGetPt(PdeCreate(pt)) == pt && PdeCreate(pt) % 8 == 7
    ensures DirsOk(WithTable(tables, d, i, pt), dirs)
  {
    hide Reaches, PdeGetPt, PdeCreate, IsKernelPage;
    var tables1 := WithTable(tables, d, i, pt);
    forall e, j: Word | e in dirs && j < USER_ENTRIES
      ensures Pde(tables1, e, j) == if e == d && j == i then PdeCreate(pt) else Pde(tables, e, j)
      ensures EntryOk(tables1, dirs, Pde(tables1, e, j))
      ensures e != d || j != i ==> Unshared(PdeCreate(pt), Pde(tables, e, j)) && Unshared(Pde(tables, e, j), PdeCreate(pt))
    {
      assert EntryOk(tables, dirs, Pde(tables, e, j));
      ZeroReaches();
    }
    forall e, j, f, k | e in dirs && f in dirs && 0 <= j < USER_ENTRIES && 0 <= k < USER_ENTRIES && (e != f || j != k)
      ensures Unshared(Pde(tables1, e, j), Pde(tables1, f, k))
    {
      assert Unshared(Pde(tables, e, j), Pde(tables, f, k));
      assert Pde(tables1, e, j) == if e == d && j == i then PdeCreate(pt) else Pde(tables, e, j);
      assert Pde(tables1, f, k) == if f == d && k == i then PdeCreate(pt) else Pde(tables, f, k);
    }
  }

  lemma ZeroReaches()
    ensures !Reaches(0)
  {
  }

  // ----- pagedir_destroy() -----

  /** The frames that entries i and up of a page table map. */
  function FramesFrom(t: seq<Word>, i: nat): seq<Word>
    requires i <= |t|
    decreases |t| - i
  {
    if i == |t| then [] else (if Reaches(t[i]) then [PteGetPage(t[i])] else []) + FramesFrom(t, i + 1)
  }

  /** The pages that pagedir_destroy() frees from entry i of directory d on: those of each page
      table, and then the page table. */
  function FreedFrom(tables: Tables, d: Word, i: nat): seq<Word>
    requires i <= USER_ENTRIES
    decreases USER_ENTRIES - i
  {
    if i == USER_ENTRIES then []
    else
      var pde := Pde(tables, d, i);
      (if Reaches(pde) && PdeGetPt(pde) in tables then FramesFrom(tables[PdeGetPt(pde)], 0) + [PdeGetPt(pde)] else [])
      + FreedFrom(tables, d, i + 1)
  }

  /** Page x is the page table of entry i. */
  predicate IsTable(tables: Tables, d: Word, i: nat, x: Word)
    requires i < USER_ENTRIES
  {
    Reaches(Pde(tables, d, i)) && PdeGetPt(Pde(tables, d, i)) in tables && PdeGetPt(Pde(tables, d, i)) == x
  }

  /** Page x is mapped through entries i and j. */
  predicate IsFrame(tables: Tables, d: Word, i: nat, j: nat, x: Word)
    requires i < USER_ENTRIES
  {
    var pde := Pde(tables, d, i);
    Reaches(pde) && PdeGetPt(pde) in tables && j < |tables[PdeGetPt(pde)]| && Reaches(tables[PdeGetPt(pde)][j])
    && PteGetPage(tables[PdeGetPt(pde)][j]) == x
  }

  /** No page is mapped twice, and neither is the directory itself nor one of its page tables
      mapped. */
  ghost predicate Injective(tables: Tables, d: Word) {
    && (forall i, j, k, l, x | 0 <= i < USER_ENTRIES && 0 <= j && 0 <= k < USER_ENTRIES && 0 <= l ::
          IsFrame(tables, d, i, j, x) && IsFrame(tables, d, k, l, x) ==> i == k && j == l)
    && (forall i, j, x | 0 <= i < USER_ENTRIES && 0 <= j :: IsFrame(tables, d, i, j, x) ==> x != d)
    && (forall i, j, k, x | 0 <= i < USER_ENTRIES && 0 <= j && 0 <= k < USER_ENTRIES ::
          IsFrame(tables, d, i, j, x) ==> !IsTable(tables, d, k, x))
  }

  ghost predicate Disjoint<T>(a: seq<T>, b: seq<T>) {
    forall x :: x in a ==> x !in b
  }

  lemma Joined<T>(a: seq<T>, b: seq<T>)
    ensures NoDuplicates(a + b) <==> NoDuplicates(a) && NoDuplicates(b) && Disjoint(a, b)
  {
    if NoDuplicates(a) && NoDuplicates(b) && Disjoint(a, b) {
      forall i, j | 0 <= i < j < |a + b|
        ensures (a + b)[i] != (a + b)[j]
      {
        assert i < |a| ==> (a + b)[i] in a;
        assert j >= |a| ==> (a + b)[j] in b;
      }
    }
    if NoDuplicates(a + b) {
      assert forall i :: 0 <= i < |a| ==> a[i] == (a + b)[i];
      assert forall i :: 0 <= i < |b| ==> b[i] == (a + b)[|a| + i];
    }
  }

  /** Entry j of a page table maps page x. */
  predicate MapsTo(t: seq<Word>, j: nat, x: Word) {
    j < |t| && Reaches(t[j]) && PteGetPage(t[j]) == x
  }

  ghost predicate MapsOnce(t: seq<Word>, i: nat) {
    forall j, k, x :: i <= j && i <= k && MapsTo(t, j, x) && MapsTo(t, k, x) ==> j == k
  }

  lemma OnceNext(t: seq<Word>, i: nat)
    requires i < |t|
    ensures MapsOnce(t, i) <==> MapsOnce(t, i + 1) && (Reaches(t[i]) ==> !exists j :: i + 1 <= j && MapsTo(t, j, PteGetPage(t[i])))
    ensures Reaches(t[i]) <==> exists x :: MapsTo(t, i, x)
  {
    hide Reaches, PteGetPage;
    if Reaches(t[i]) {
      assert MapsTo(t, i, PteGetPage(t[i]));
    }
  }

  /** The frames of a page table, in a list without duplicates exactly if it maps none twice. */
  lemma {:induction false} FramesExact(t: seq<Word>, i: nat)
    requires i <= |t|
    ensures forall x :: x in FramesFrom(t, i) <==> exists j :: i <= j && MapsTo(t, j, x)
    ensures NoDuplicates(FramesFrom(t, i)) <==> MapsOnce(t, i)
    decreases |t| - i
  {
    hide Reaches, PteGetPage, NoDuplicates;
    if i < |t| {
      FramesExact(t, i + 1);
      var rest := FramesFrom(t, i + 1);
      OnceNext(t, i);
      if Reaches(t[i]) {
        var f := PteGetPage(t[i]);
        Joined([f], rest);
        Single(f);
        assert Disjoint([f], rest) <==> f !in rest;
        assert f !in rest <==> !exists j :: i + 1 <= j && MapsTo(t, j, f);
        assert FramesFrom(t, i) == [f] + rest;
      } else {
        assert FramesFrom(t, i) == rest;
      }
      hide MapsOnce;
      forall x
        ensures (exists j :: i <= j && MapsTo(t, j, x)) <==> MapsTo(t, i, x) || exists j :: i + 1 <= j && MapsTo(t, j, x)
      {
        if j :| i <= j && MapsTo(t, j, x) {
          assert j == i || i + 1 <= j;
        }
      }
    } else {
      Empty<Word>();
    }
  }

  lemma Single<T>(x: T)
    ensures NoDuplicates([x])
  {
  }

  lemma Empty<T>()
    ensures NoDuplicates<T>([])
  {
  }

  /** pagedir_destroy() frees page x for entry k. */
  ghost predicate FreesFor(tables: Tables, d: Word, k: nat, x: Word)
    requires k < USER_ENTRIES
  {
    IsTable(tables, d, k, x) || exists j: nat :: IsFrame(tables, d, k, j, x)
  }

  ghost predicate FreesFrom(tables: Tables, d: Word, i: nat, x: Word) {
    exists k :: i <= k < USER_ENTRIES && FreesFor(tables, d, k, x)
  }

  function Piece(tables: Tables, d: Word, i: nat): seq<Word>
    requires i < USER_ENTRIES
  {
    var pde := Pde(tables, d, i);
    if Reaches(pde) && PdeGetPt(pde) in tables then FramesFrom(tables[PdeGetPt(pde)], 0) + [PdeGetPt(pde)] else []
  }

  /** Entry i maps no page twice, and not its page table. */
  ghost predicate EntryInjective(tables: Tables, d: Word, i: nat)
    requires i < USER_ENTRIES
  {
    && (forall j, l, x | 0 <= j && 0 <= l :: IsFrame(tables, d, i, j, x) && IsFrame(tables, d, i, l, x) ==> j == l)
    && (forall j, x | 0 <= j :: IsFrame(tables, d, i, j, x) ==> !IsTable(tables, d, i, x))
  }

  lemma EntryOfTable(tables: Tables, d: Word, i: nat, t: seq<Word>, pt: Word)
    requires i < USER_ENTRIES && forall j: nat, x :: MapsTo(t, j, x) <==> IsFrame(tables, d, i, j, x)
    requires IsTable(tables, d, i, pt)
    requires forall x :: x in FramesFrom(t, 0) <==> exists j :: 0 <= j && MapsTo(t, j, x)
    ensures EntryInjective(tables, d, i) <==> MapsOnce(t, 0) && Disjoint(FramesFrom(t, 0), [pt])
  {
    hide MapsTo, IsFrame, FramesFrom;
    assert forall x :: IsTable(tables, d, i, x) <==> x == pt;
    hide IsTable;
    assert Disjoint(FramesFrom(t, 0), [pt]) <==> pt !in FramesFrom(t, 0);
    if EntryInjective(tables, d, i) {
      assert MapsOnce(t, 0);
    }
    if MapsOnce(t, 0) && pt !in FramesFrom(t, 0) {
      forall j: nat, l: nat, x | IsFrame(tables, d, i, j, x) && IsFrame(tables, d, i, l, x)
        ensures j == l && !IsTable(tables, d, i, x)
      {
        assert MapsTo(t, j, x) && MapsTo(t, l, x);
      }
    }
  }

  lemma PieceExact(tables: Tables, d: Word, i: nat)
    requires TablesOk(tables) && i < USER_ENTRIES
    ensures forall x :: x in Piece(tables, d, i) <==> FreesFor(tables, d, i, x)
    ensures NoDuplicates(Piece(tables, d, i)) <==> EntryInjective(tables, d, i)
  {
    hide NoDuplicates;
    Empty<Word>();
    var pde := Pde(tables, d, i);
    if Reaches(pde) && PdeGetPt(pde) in tables {
      var pt := PdeGetPt(pde);
      var t := tables[pt];
      forall j: nat, x
        ensures MapsTo(t, j, x) <==> IsFrame(tables, d, i, j, x)
      {
      }
      FramesExact(t, 0);
      Single(pt);
      Joined(FramesFrom(t, 0), [pt]);
      EntryOfTable(tables, d, i, t, pt);
    }
  }

  /** Entries i and up are each injective, and free different pages. */
  ghost predicate InjectiveFrom(tables: Tables, d: Word, i: nat) {
    && (forall k :: i <= k < USER_ENTRIES ==> EntryInjective(tables, d, k))
    && (forall k, l, x :: i <= k < l < USER_ENTRIES && FreesFor(tables, d, k, x) ==> !FreesFor(tables, d, l, x))
  }

  /** pagedir_destroy() frees each mapped page and each page table of the directory, and none
      twice exactly if that is so. */
  lemma {:induction false} FreedExact(tables: Tables, d: Word, i: nat)
    requires TablesOk(tables) && i <= USER_ENTRIES
    ensures forall x :: x in FreedFrom(tables, d, i) <==> FreesFrom(tables, d, i, x)
    ensures NoDuplicates(FreedFrom(tables, d, i)) <==> InjectiveFrom(tables, d, i)
    decreases USER_ENTRIES - i
  {
    hide NoDuplicates, FreesFor, EntryInjective, Reaches, PdeGetPt, FramesFrom;
    Empty<Word>();
    if i < USER_ENTRIES {
      PieceExact(tables, d, i);
      FreedExact(tables, d, i + 1);
      var piece, rest := Piece(tables, d, i), FreedFrom(tables, d, i + 1);
      Joined(piece, rest);
      FreesNext(tables, d, i);
      assert FreedFrom(tables, d, i) == piece + rest;
      assert Disjoint(piece, rest) <==> forall x :: FreesFor(tables, d, i, x) ==> !FreesFrom(tables, d, i + 1, x);
      InjectiveNext(tables, d, i);
    }
  }

  lemma FreesNext(tables: Tables, d: Word, i: nat)
    requires i < USER_ENTRIES
    ensures forall x :: FreesFrom(tables, d, i, x) <==> FreesFor(tables, d, i, x) || FreesFrom(tables, d, i + 1, x)
  {
    hide FreesFor;
  }

  lemma InjectiveNext(tables: Tables, d: Word, i: nat)
    requires i < USER_ENTRIES
    ensures InjectiveFrom(tables, d, i) <==>
              EntryInjective(tables, d, i) && InjectiveFrom(tables, d, i + 1)
              && forall x :: FreesFor(tables, d, i, x) ==> !FreesFrom(tables, d, i + 1, x)
  {
    hide FreesFor, EntryInjective;
  }

  // ----- what the processor makes of it -----

  /** What a page table entry lets kernel and user do with the byte at va, below an entry with all
      flags set. */
  function Allowed(pte: Word, va: Word): Access {
    if pte % 2 == 0 then Fault else Byte(pte - pte % 4096 + va % 4096, pte / 4 % 2 == 1, pte / 2 % 2 == 1)
  }

  lemma FlagsSet(pde: Word)
    requires pde % 8 == 7
    ensures pde % 2 == 1 && pde / 2 % 2 == 1 && pde / 4 % 2 == 1
  {
    var q := pde / 8;
    assert pde == 8 * q + 7;
    assert pde / 2 == 4 * q + 3 && pde / 4 == 2 * q + 1;
  }

  lemma PdePage(pde: Word)
    requires Reaches(pde)
    ensures pde - pde % 4096 + 0xc000_0000 == PdeGetPt(pde)
  {
  }

  /** User addresses are walked by way of the user entries. */
  lemma UserWalk(tables: Tables, dirs: set<Word>, e: Word, va: Word)
    requires DirsOk(tables, dirs) && e in dirs && IsUserVaddr(va)
    ensures Walk(tables, e, va) == Allowed(Pte(tables, e, va), va)
  {
    hide Reaches, PdeGetPt;
    var pde := Pde(tables, e, PdNo(va));
    assert EntryOk(tables, dirs, pde);
    assert WordAt(tables, e, va / 4194304) == pde;
    if pde != 0 {
      FlagsSet(pde);
      PdePage(pde);
      assert WordAt(tables, PdeGetPt(pde), va / 4096 % 1024) == Pte(tables, e, va);
    }
  }

  lemma Remainder(w: int, m: int, q: int, r: int)
    requires 0 <= r < m && w == m * q + r
    ensures w / m == q && w % m == r
  {
    MulComm(m, q);
    QuotientUnique(w, m, q);
  }

  /** The fields of an entry. */
  lemma EntryFields(base: int, flags: int)
    requires base % 4096 == 0 && 0 <= flags < 8
    ensures (base + flags) - (base + flags) % 4096 == base && (base + flags) % 2 == flags % 2
    ensures (base + flags) / 2 % 2 == flags / 2 % 2 && (base + flags) / 4 % 2 == flags / 4 % 2
  {
    var q := base / 4096;
    Remainder(base + flags, 4096, q, flags);
    Remainder(base + flags, 2, 2048 * q + flags / 2, flags % 2);
    Remainder(base + flags, 4, 1024 * q + flags / 4, flags % 4);
    Remainder(2048 * q + flags / 2, 2, 1024 * q + flags / 2 / 2, flags / 2 % 2);
    Remainder(1024 * q + flags / 4, 2, 512 * q + flags / 4 / 2, flags / 4 % 2);
  }

  /** What an entry made for the user lets the user do. */
  lemma UserEntry(page: Word, writable: bool, va: Word)
    requires IsKernelPage(page)
    ensures Allowed(PteCreateUser(page, writable), va) == Byte(page - 0xc000_0000 + va % 4096, true, writable)
  {
    EntryFields(page - 0xc000_0000, if writable then 7 else 5);
  }

  lemma KernelEntry(page: Word, writable: bool)
    requires IsKernelPage(page)
    ensures var pte := PteCreateKernel(page, writable);
            && pte % 2 == 1 && pte / 2 % 2 == (if writable then 1 else 0) && pte / 4 % 2 == 0
            && pte - pte % 4096 == page - 0xc000_0000 && Reaches(pte)
  {
    EntryFields(page - 0xc000_0000, if writable then 3 else 1);
  }

  /** A directory entry for kernel addresses is zero or points to a page table of the kernel. */
  ghost predicate KernelEntryOk(kernelPts: set<Word>, pde: Word) {
    pde != 0 ==> Reaches(pde) && PdeGetPt(pde) in kernelPts
  }

  /** The page table has no entry for users. */
  ghost predicate Closed(table: seq<Word>) {
    forall j :: 0 <= j < |table| ==> table[j] / 4 % 2 == 0
  }

  /** All directories share the kernel's page tables, above the user addresses alone, and these
      are closed to users. */
  ghost predicate KernelOk(tables: Tables, dirs: set<Word>, kernel: Word, kernelPts: set<Word>) {
    && kernel in dirs
    && (forall a :: a in kernelPts ==> a in tables && a !in dirs && Closed(tables[a]))
    && (forall d, i :: d in dirs && USER_ENTRIES <= i < ENTRIES ==> Pde(tables, d, i) == Pde(tables, kernel, i))
    && (forall i :: USER_ENTRIES <= i < ENTRIES ==> KernelEntryOk(kernelPts, Pde(tables, kernel, i)))
    && (forall d, i :: d in dirs && 0 <= i < USER_ENTRIES && Reaches(Pde(tables, d, i)) ==> PdeGetPt(Pde(tables, d, i)) !in kernelPts)
  }

  /** No user reads or writes at a kernel address, whatever the directory. */
  lemma KernelShut(tables: Tables, dirs: set<Word>, kernel: Word, kernelPts: set<Word>, e: Word, va: Word)
    requires KernelOk(tables, dirs, kernel, kernelPts) && e in dirs && !IsUserVaddr(va)
    ensures !UserReads(Walk(tables, e, va)) && !UserWrites(Walk(tables, e, va))
    ensures Walk(tables, e, va) == Walk(tables, kernel, va)
  {
    hide Reaches, PdeGetPt;
    var pde := Pde(tables, e, PdNo(va));
    assert KernelEntryOk(kernelPts, pde);
    assert WordAt(tables, e, va / 4194304) == pde && WordAt(tables, kernel, va / 4194304) == pde;
    if pde != 0 {
      PdePage(pde);
      assert Closed(tables[PdeGetPt(pde)]);
    }
  }

  /** The kernel's page tables are the same, and so is the kernel's half of every directory. */
  ghost predicate KernelSame(tables: Tables, tables1: Tables, dirs: set<Word>, kernelPts: set<Word>) {
    && (forall a :: a in kernelPts ==> a in tables && a in tables1 && tables1[a] == tables[a])
    && (forall d, i :: d in dirs && USER_ENTRIES <= i < ENTRIES ==> Pde(tables1, d, i) == Pde(tables, d, i))
  }

  lemma KernelWalk(tables: Tables, tables1: Tables, dirs: set<Word>, some: set<Word>, kernel: Word, kernelPts: set<Word>, e: Word, va: Word)
    requires KernelOk(tables, dirs, kernel, kernelPts) && KernelSame(tables, tables1, some, kernelPts)
    requires e in dirs && e in some && !IsUserVaddr(va)
    ensures Walk(tables1, e, va) == Walk(tables, e, va)
  {
    hide Reaches, PdeGetPt, Closed;
    var pde := Pde(tables, e, PdNo(va));
    assert KernelEntryOk(kernelPts, pde);
    assert Pde(tables1, e, PdNo(va)) == pde;
    assert WordAt(tables, e, va / 4194304) == pde && WordAt(tables1, e, va / 4194304) == pde;
    if pde != 0 {
      PdePage(pde);
    }
  }

  lemma WrittenKernel(tables: Tables, dirs: set<Word>, kernel: Word, kernelPts: set<Word>, a: Word, i: Word, word: Word)
    requires KernelOk(tables, dirs, kernel, kernelPts) && a in tables && i < |tables[a]| && a !in dirs && a !in kernelPts
    ensures KernelOk(Write(tables, a, i, word), dirs, kernel, kernelPts) && KernelSame(tables, Write(tables, a, i, word), dirs, kernelPts)
  {
    hide Reaches, PdeGetPt, Closed, KernelEntryOk;
    var tables1 := Write(tables, a, i, word);
    forall d, j: Word | d in dirs
      ensures Pde(tables1, d, j) == Pde(tables, d, j)
    {
    }
  }

  lemma TableAddedKernel(tables: Tables, dirs: set<Word>, d: Word, i: Word, pt: Word, kernel: Word, kernelPts: set<Word>)
    requires KernelOk(tables, dirs, kernel, kernelPts) && d in dirs && d in tables && i < |tables[d]| && i < USER_ENTRIES
    requires IsKernelPage(pt) && pt !in tables && Reaches(PdeCreate(pt)) && PdeGetPt(PdeCreate(pt)) == pt && forall e :: e in dirs ==> e in tables
    ensures KernelOk(WithTable(tables, d, i, pt), dirs, kernel, kernelPts)
    ensures KernelSame(tables, WithTable(tables, d, i, pt), dirs, kernelPts)
  {
    hide Reaches, PdeGetPt, Closed, KernelEntryOk, PdeCreate;
    var tables1 := WithTable(tables, d, i, pt);
    forall e, j: Word | e in dirs
      ensures Pde(tables1, e, j) == if e == d && j == i then PdeCreate(pt) else Pde(tables, e, j)
    {
    }
  }

  /** The page table entry of upage in directory d was set to word, and nothing else changed. */
  lemma Rewalked(tables: Tables, tables1: Tables, dirs: set<Word>, kernel: Word, kernelPts: set<Word>, d: Word, upage: Word, word: Word)
    requires DirsOk(tables, dirs) && DirsOk(tables1, dirs) && KernelOk(tables, dirs, kernel, kernelPts)
    requires KernelSame(tables, tables1, dirs, kernelPts) && IsUserVaddr(upage)
    requires forall e, va: Word :: e in dirs && IsUserVaddr(va) ==>
               Pte(tables1, e, va) == if e == d && PageOf(va) == PageOf(upage) then word else Pte(tables, e, va)
    ensures forall e, va: Word :: e in dirs ==>
              Walk(tables1, e, va) == if e == d && PageOf(va) == PageOf(upage) then Allowed(word, va) else Walk(tables, e, va)
  {
    hide DirsOk, KernelOk, KernelSame, Pte, Walk, Allowed;
    forall e, va: Word | e in dirs
      ensures Walk(tables1, e, va) == if e == d && PageOf(va) == PageOf(upage) then Allowed(word, va) else Walk(tables, e, va)
    {
      if IsUserVaddr(va) {
        UserWalk(tables, dirs, e, va);
        UserWalk(tables1, dirs, e, va);
      } else {
        KernelWalk(tables, tables1, dirs, dirs, kernel, kernelPts, e, va);
      }
    }
  }

  /** No entry changed. */
  lemma SameWalks(tables: Tables, tables1: Tables, dirs: set<Word>, dirs1: set<Word>, kernel: Word, kernelPts: set<Word>)
    requires DirsOk(tables, dirs) && DirsOk(tables1, dirs1) && KernelOk(tables, dirs, kernel, kernelPts)
    requires KernelSame(tables, tables1, dirs1 * dirs, kernelPts)
    requires forall e, va: Word :: e in dirs1 * dirs && IsUserVaddr(va) ==> Pte(tables1, e, va) == Pte(tables, e, va)
    ensures forall e, va: Word :: e in dirs1 * dirs ==> Walk(tables1, e, va) == Walk(tables, e, va)
  {
    hide DirsOk, KernelOk, KernelSame, Pte, Walk, Allowed;
    forall e, va: Word | e in dirs1 * dirs
      ensures Walk(tables1, e, va) == Walk(tables, e, va)
    {
      if IsUserVaddr(va) {
        UserWalk(tables, dirs, e, va);
        UserWalk(tables1, dirs1, e, va);
      } else {
        KernelWalk(tables, tables1, dirs, dirs1 * dirs, kernel, kernelPts, e, va);
      }
    }
  }

  // ----- pagedir.c -----

  /** Entries of page tables that are present point to pages the kernel can reach. */
  ghost predicate PtesOk(tables: Tables, dirs: set<Word>) {
    forall a, j :: a in tables && a !in dirs && 0 <= j < |tables[a]| ==> (Present(tables[a][j]) ==> Reaches(tables[a][j]))
  }

  lemma TableAddedPtes(tables: Tables, dirs: set<Word>, d: Word, i: Word, pt: Word)
    requires PtesOk(tables, dirs) && d in dirs && d in tables && i < |tables[d]| && IsKernelPage(pt) && pt !in tables
    ensures PtesOk(WithTable(tables, d, i, pt), dirs)
  {
    hide Reaches;
  }

  lemma WrittenPtes(tables: Tables, dirs: set<Word>, a: Word, i: Word, word: Word)
    requires PtesOk(tables, dirs) && a in tables && i < |tables[a]| && (Present(word) ==> Reaches(word))
    ensures PtesOk(Write(tables, a, i, word), dirs)
  {
    hide Reaches;
  }

  /** The translations of all directories but d, and of all pages of d but that of upage, are
      the same; that one is frame. */
  ghost predicate Remapped(tables: Tables, tables1: Tables, dirs: set<Word>, d: Word, upage: Word, frame: Option<Word>) {
    forall e, va: Word :: e in dirs && IsUserVaddr(va) ==>
      Frame(tables1, e, va) == if e == d && PageOf(va) == PageOf(upage) then frame else Frame(tables, e, va)
  }

  ghost predicate NoUserEntries(tables: Tables, d: Word) {
    d in tables && forall i: Word :: i < USER_ENTRIES ==> Pde(tables, d, i) == 0
  }

  lemma UserEntriesZero(tables: Tables, d: Word)
    requires NoUserEntries(tables, d) && TablesOk(tables)
    ensures forall i :: 0 <= i < USER_ENTRIES ==> tables[d][i] == 0
  {
    forall i | 0 <= i < USER_ENTRIES
      ensures tables[d][i] == 0
    {
      assert Pde(tables, d, i) == tables[d][i];
    }
  }

  lemma NoUserEntriesKept(tables: Tables, d: Word, a: Word, i: Word, word: Word)
    requires NoUserEntries(tables, d) && a in tables && i < |tables[a]| && a != d
    ensures NoUserEntries(Write(tables, a, i, word), d)
  {
    assert forall j: Word :: Pde(Write(tables, a, i, word), d, j) == Pde(tables, d, j);
  }

  lemma NoUserEntriesLeft(tables: Tables, tables1: Tables, d: Word)
    requires NoUserEntries(tables, d) && d in tables1 && tables1[d] == tables[d]
    ensures NoUserEntries(tables1, d)
  {
    assert forall j: Word :: Pde(tables1, d, j) == Pde(tables, d, j);
  }

  lemma NoUserEntriesAdded(tables: Tables, d: Word, a: Word, i: Word, pt: Word)
    requires NoUserEntries(tables, d) && a in tables && i < |tables[a]| && a != d && pt !in tables && IsKernelPage(pt)
    ensures NoUserEntries(WithTable(tables, a, i, pt), d)
  {
    assert forall j: Word :: Pde(WithTable(tables, a, i, pt), d, j) == Pde(tables, d, j);
  }

  /** The page directories and page tables in the kernel's memory. */
  class PageDirs {
    var tables: Tables
    const initPageDir: Word
    ghost var dirs: set<Word>
    ghost const kernelPts: set<Word>

    /** The directory and the page tables that paging_init() leaves. */
    constructor (initPageDir: Word, tables: Tables, ghost kernelPts: set<Word>)
      requires DirsOk(tables, {initPageDir}) && PtesOk(tables, {initPageDir}) && NoUserEntries(tables, initPageDir)
      requires KernelOk(tables, {initPageDir}, initPageDir, kernelPts)
      ensures Valid() && dirs == {initPageDir} && this.initPageDir == initPageDir && this.tables == tables && this.kernelPts == kernelPts
    {
      this.initPageDir, this.tables, dirs := initPageDir, tables, {initPageDir};
      this.kernelPts := kernelPts;
    }

    ghost predicate Valid()
      reads this
    {
      && DirsOk(tables, dirs) && PtesOk(tables, dirs) && initPageDir in dirs
      && NoUserEntries(tables, initPageDir)
      && KernelOk(tables, dirs, initPageDir, kernelPts)
    }

    /** A page that palloc_get_page() may return: null, or a page not in use for a table. */
    predicate Allocatable(page: Word)
      reads this
    {
      page == 0 || (IsKernelPage(page) && page !in tables)
    }

    /** lookup_page(): the page table with the entry for va, or 0 for null. page is what
        palloc_get_page() returns if it is called. */
    method LookupPage(pd: Word, va: Word, create: bool, page: Word) returns (pt: Word)
      requires Valid() && pd in dirs && IsUserVaddr(va) && Allocatable(page) && (create ==> pd != initPageDir)
      modifies this`tables
      ensures Valid()
      ensures pt == 0 <==> old(Pde(tables, pd, PdNo(va))) == 0 && (!create || page == 0)
      ensures pt != 0 ==> Reaches(Pde(tables, pd, PdNo(va))) && pt == PdeGetPt(Pde(tables, pd, PdNo(va))) && pt in tables && pt !in dirs
      ensures (pt != 0 ==> pt !in kernelPts) && KernelSame(old(tables), tables, dirs, kernelPts)
      ensures forall e, u: Word :: e in dirs && IsUserVaddr(u) ==> Pte(tables, e, u) == old(Pte(tables, e, u))
      ensures forall e, u: Word :: e in dirs ==> Walk(tables, e, u) == old(Walk(tables, e, u))
      ensures pt == 0 || !create ==> tables == old(tables)
    {
      hide Reaches, PdeGetPt, PdNo, PtNo, PdeCreate, PtesOk, KernelOk, KernelSame, Walk;
      KernelFacts(tables, dirs, initPageDir, kernelPts);
      var pde := tables[pd][PdNo(va)];
      assert EntryOk(tables, dirs, Pde(tables, pd, PdNo(va)));
      if pde == 0 {
        if create {
          pt := page;
          if pt == 0 {
            return 0;
          }
          EntryRoundTrip(pt, false);
          TableAdded(tables, dirs, pd, PdNo(va), pt);
          TableAddedPtes(tables, dirs, pd, PdNo(va), pt);
          NoUserEntriesAdded(tables, initPageDir, pd, PdNo(va), pt);
          TableAddedKernel(tables, dirs, pd, PdNo(va), pt, initPageDir, kernelPts);
          assert dirs * dirs == dirs;
          SameWalks(tables, WithTable(tables, pd, PdNo(va), pt), dirs, dirs, initPageDir, kernelPts);
          tables := WithTable(tables, pd, PdNo(va), pt);
          pde := PdeCreate(pt);
          assert EntryOk(tables, dirs, Pde(tables, pd, PdNo(va)));
        } else {
          return 0;
        }
      }
      pt := PdeGetPt(pde);
      KernelApart(tables, dirs, initPageDir, kernelPts, pd, PdNo(va));
    }

    /** pagedir_create() */
    method Create(page: Word) returns (pd: Word)
      requires Valid() && Allocatable(page)
      modifies this
      ensures Valid() && pd == page && dirs == old(dirs) + (if pd == 0 then {} else {pd})
      ensures pd == 0 ==> tables == old(tables)
      ensures pd != 0 ==>
                && (forall va: Word :: IsUserVaddr(va) ==> Frame(tables, pd, va) == None && Walk(tables, pd, va) == Fault)
                && (forall va: Word :: !IsUserVaddr(va) ==> Walk(tables, pd, va) == Walk(tables, initPageDir, va))
                && (forall e, va: Word :: e in old(dirs) ==> Walk(tables, e, va) == old(Walk(tables, e, va)))
                && (forall e, va: Word :: e in old(dirs) && IsUserVaddr(va) ==> Frame(tables, e, va) == old(Frame(tables, e, va)))
    {
      hide Reaches, PdeGetPt, PdNo, PtNo, PteGetPage, KernelOk, Walk;
      pd := page;
      if pd != 0 {
        ZeroReaches();
        UserEntriesZero(tables, initPageDir);
        DirAdded(tables, dirs, pd, tables[initPageDir]);
        DirAddedKernel(tables, dirs, pd, initPageDir, kernelPts);
        DirAddedWalks(tables, dirs, pd, initPageDir, kernelPts);
        tables := tables[pd := tables[initPageDir]];
        dirs := dirs + {pd};
      }
    }

    /** pagedir_set_page(); its assertions are the precondition. */
    method SetPage(pd: Word, upage: Word, kpage: Word, writable: bool, page: Word) returns (ok: bool)
      requires Valid() && pd in dirs && pd != initPageDir && Allocatable(page)
      requires PgOfs(upage) == 0 && IsUserVaddr(upage) && IsKernelPage(kpage) && Frame(tables, pd, upage) == None
      modifies this`tables
      ensures Valid() && (ok <==> old(Pde(tables, pd, PdNo(upage))) != 0 || page != 0)
      ensures ok ==> Remapped(old(tables), tables, dirs, pd, upage, Some(kpage))
      ensures ok ==> forall e, va: Word :: e in dirs ==>
                       Walk(tables, e, va) == if e == pd && PageOf(va) == upage then Byte(kpage - 0xc000_0000 + va % 4096, true, writable)
                                              else old(Walk(tables, e, va))
      ensures !ok ==> tables == old(tables)
    {
      hide Reaches, PdeGetPt, PdNo, PtNo, PteGetPage, PteCreateUser, PtesOk, Unshared, KernelOk, KernelSame, Walk, Allowed;
      ghost var tables0 := tables;
      var pt := LookupPage(pd, upage, true, page);
      if pt == 0 {
        return false;
      }
      EntryRoundTrip(kpage, writable);
      ghost var tables1 := tables;
      Rewritten(tables0, tables1, dirs, pd, upage, PteCreateUser(kpage, writable));
      WrittenPtes(tables, dirs, pt, PtNo(upage), PteCreateUser(kpage, writable));
      PteWrittenOk(tables, dirs, pt, PtNo(upage), PteCreateUser(kpage, writable));
      NoUserEntriesKept(tables, initPageDir, pt, PtNo(upage), PteCreateUser(kpage, writable));
      WrittenKernel(tables, dirs, initPageDir, kernelPts, pt, PtNo(upage), PteCreateUser(kpage, writable));
      tables := Write(tables, pt, PtNo(upage), PteCreateUser(kpage, writable));
      Rewalked(tables1, tables, dirs, initPageDir, kernelPts, pd, upage, PteCreateUser(kpage, writable));
      UserEntries(kpage, writable);
      return true;
    }

    /** pagedir_get_page(): the kernel address of va's byte, or 0 for null. */
    method GetPage(pd: Word, va: Word) returns (address: Word)
      requires Valid() && pd in dirs && IsUserVaddr(va)
      modifies this`tables
      ensures Valid() && tables == old(tables)
      ensures match Frame(tables, pd, va)
              case None => address == 0
              case Some(page) => address == page + PgOfs(va)
      ensures match Walk(tables, pd, va)
              case Fault => address == 0
              case Byte(physical, _, _) => address == physical + 0xc000_0000
    {
      hide PdeGetPt, PdNo, PtNo, EntryOk, Unshared, KernelOk, KernelSame, Walk;
      UserWalk(tables, dirs, pd, va);
      var pt := LookupPage(pd, va, false, 0);
      if pt != 0 {
        var pte := tables[pt][PtNo(va)];
        PteKnown(tables, dirs, pd, va);
        assert pte == Pte(tables, pd, va);
        if Present(pte) {
          return PteGetPage(pte) + PgOfs(va);
        }
      }
      return 0;
    }

    /** pagedir_clear_page() */
    method ClearPage(pd: Word, upage: Word)
      requires Valid() && pd in dirs && PgOfs(upage) == 0 && IsUserVaddr(upage)
      modifies this`tables
      ensures Valid() && Remapped(old(tables), tables, dirs, pd, upage, None)
      ensures forall e, va: Word :: e in dirs ==>
                Walk(tables, e, va) == if e == pd && PageOf(va) == upage then Fault else old(Walk(tables, e, va))
    {
      hide Reaches, PdeGetPt, PdNo, PtNo, PteGetPage, PtesOk, Unshared, KernelOk, KernelSame, Walk, Allowed;
      ghost var tables0 := tables;
      var pt := LookupPage(pd, upage, false, 0);
      Unmapped(tables, dirs, pd, upage);
      if pt != 0 {
        var pte := tables[pt][PtNo(upage)];
        if Present(pte) {
          Absent(pte);
          Rewritten(tables, tables, dirs, pd, upage, pte - PTE_P);
          WrittenPtes(tables, dirs, pt, PtNo(upage), pte - PTE_P);
          PteWrittenOk(tables, dirs, pt, PtNo(upage), pte - PTE_P);
          NoUserEntriesKept(tables, initPageDir, pt, PtNo(upage), pte - PTE_P);
          WrittenKernel(tables, dirs, initPageDir, kernelPts, pt, PtNo(upage), pte - PTE_P);
          tables := Write(tables, pt, PtNo(upage), pte - PTE_P);
          Rewalked(tables0, tables, dirs, initPageDir, kernelPts, pd, upage, pte - PTE_P);
          AbsentFaults(pte - PTE_P);
          return;
        }
      }
      NotPresent(tables, dirs, pd, upage);
    }

    /** The inner loop of pagedir_destroy(): the pages it frees for one page table. */
    method FreeFrames(pt: Word) returns (freed: seq<Word>)
      requires Valid() && pt in tables && pt !in dirs
      ensures freed == FramesFrom(tables[pt], 0)
    {
      hide FramesFrom, Reaches, PteGetPage, Present;
      TableShape(tables, dirs, pt);
      hide DirsOk, PtesOk, NoUserEntries;
      ghost var t := tables[pt];
      FramesEnd(t);
      freed := [];
      var j := 0;
      while j < ENTRIES
        invariant 0 <= j <= ENTRIES && freed + FramesFrom(t, j) == FramesFrom(t, 0)
      {
        ghost var before := freed;
        if Present(tables[pt][j]) {
          freed := freed + [PteGetPage(tables[pt][j])];
        }
        FramesNext(t, j, before, freed);
        j := j + 1;
      }
    }

    /** The outer loop: what it frees, and the page tables among that. */
    method FreeTables(pd: Word) returns (freed: seq<Word>, gone: set<Word>)
      requires Valid() && pd in dirs && pd != initPageDir
      ensures freed == FreedFrom(tables, pd, 0)
      ensures forall x :: x in gone ==> exists k :: 0 <= k < USER_ENTRIES && IsTable(tables, pd, k, x)
    {
      hide Reaches, PdeGetPt, PtesOk, Unshared, FramesFrom, FreedFrom, NoUserEntries, IsTable;
      FreedEnd(tables, pd);
      freed, gone := [], {};
      var i := 0;
      while i < USER_ENTRIES
        invariant 0 <= i <= USER_ENTRIES
        invariant freed + FreedFrom(tables, pd, i) == FreedFrom(tables, pd, 0)
        invariant forall x :: x in gone ==> exists k :: 0 <= k < USER_ENTRIES && IsTable(tables, pd, k, x)
      {
        ghost var before := freed;
        var pde := tables[pd][i];
        if Present(pde) {
          PresentReaches(tables, dirs, pd, i);
          var pt := PdeGetPt(pde);
          var frames := FreeFrames(pt);
          freed := freed + frames + [pt];
          gone := gone + {pt};
        }
        FreedNext(tables, pd, i, before, freed);
        i := i + 1;
      }
    }

    /** pagedir_destroy(): the pages that it frees, in order. */
    method Destroy(pd: Word) returns (freed: seq<Word>)
      requires Valid() && (pd != 0 ==> pd in dirs && pd != initPageDir)
      modifies this
      ensures Valid() && dirs == old(dirs) - {pd}
      ensures freed == if pd == 0 then [] else FreedFrom(old(tables), pd, 0) + [pd]
      ensures forall e, va: Word :: e in dirs && IsUserVaddr(va) ==> Frame(tables, e, va) == old(Frame(tables, e, va))
      ensures forall e, va: Word :: e in dirs ==> Walk(tables, e, va) == old(Walk(tables, e, va))
    {
      hide DirsOk, PtesOk, Frame, FreedFrom, Pte, KernelOk, KernelSame, Walk;
      NullNotDir(tables, dirs);
      if pd == 0 {
        return [];
      }
      var gone;
      freed, gone := FreeTables(pd);
      freed := freed + [pd];
      Unhooked(tables, dirs, pd, gone + {pd});
      NoUserEntriesLeft(tables, tables - (gone + {pd}), initPageDir);
      DirsKnown(tables, dirs);
      UnhookedKernel(tables, dirs, pd, gone + {pd}, initPageDir, kernelPts);
      SameWalks(tables, tables - (gone + {pd}), dirs, dirs - {pd}, initPageDir, kernelPts);
      tables := tables - (gone + {pd});
      dirs := dirs - {pd};
    }
  }

  lemma UserEntries(page: Word, writable: bool)
    requires IsKernelPage(page)
    ensures forall va: Word :: Allowed(PteCreateUser(page, writable), va) == Byte(page - 0xc000_0000 + va % 4096, true, writable)
  {
    forall va: Word
      ensures Allowed(PteCreateUser(page, writable), va) == Byte(page - 0xc000_0000 + va % 4096, true, writable)
    {
      UserEntry(page, writable, va);
    }
  }

  lemma AbsentFaults(pte: Word)
    requires !Present(pte)
    ensures forall va: Word :: Allowed(pte, va) == Fault
  {
  }

  lemma NotPresent(tables: Tables, dirs: set<Word>, d: Word, upage: Word)
    requires DirsOk(tables, dirs) && d in dirs && IsUserVaddr(upage) && !Present(Pte(tables, d, upage))
    ensures forall va: Word :: PageOf(va) == PageOf(upage) ==> Walk(tables, d, va) == Fault
  {
    hide DirsOk, Pte, Walk;
    forall va: Word | PageOf(va) == PageOf(upage)
      ensures Walk(tables, d, va) == Fault
    {
      SamePage(va, upage);
      UserWalk(tables, dirs, d, va);
      assert Pte(tables, d, va) == Pte(tables, d, upage) by {
        PteOfPage(tables, d, va, upage);
      }
    }
  }

  lemma PteOfPage(tables: Tables, d: Word, va: Word, vb: Word)
    requires PdNo(va) == PdNo(vb) && PtNo(va) == PtNo(vb)
    ensures Pte(tables, d, va) == Pte(tables, d, vb)
  {
  }

  lemma KernelFacts(tables: Tables, dirs: set<Word>, kernel: Word, kernelPts: set<Word>)
    requires KernelOk(tables, dirs, kernel, kernelPts)
    ensures KernelSame(tables, tables, dirs, kernelPts)
  {
  }

  lemma KernelApart(tables: Tables, dirs: set<Word>, kernel: Word, kernelPts: set<Word>, d: Word, i: Word)
    requires KernelOk(tables, dirs, kernel, kernelPts) && d in dirs && i < USER_ENTRIES && Reaches(Pde(tables, d, i))
    ensures PdeGetPt(Pde(tables, d, i)) !in kernelPts
  {
  }

  lemma DirAddedKernel(tables: Tables, dirs: set<Word>, d: Word, kernel: Word, kernelPts: set<Word>)
    requires KernelOk(tables, dirs, kernel, kernelPts) && NoUserEntries(tables, kernel) && d !in tables && forall e :: e in dirs ==> e in tables
    ensures KernelOk(tables[d := tables[kernel]], dirs + {d}, kernel, kernelPts)
    ensures KernelSame(tables, tables[d := tables[kernel]], dirs, kernelPts)
  {
    hide Reaches, PdeGetPt, Closed, KernelEntryOk;
    ZeroReaches();
    var tables1 := tables[d := tables[kernel]];
    forall e, j: Word | e in dirs + {d}
      ensures Pde(tables1, e, j) == if e == d then Pde(tables, kernel, j) else Pde(tables, e, j)
    {
    }
  }

  lemma DirAddedWalks(tables: Tables, dirs: set<Word>, d: Word, kernel: Word, kernelPts: set<Word>)
    requires DirsOk(tables, dirs) && kernel in tables && DirsOk(tables[d := tables[kernel]], dirs + {d})
    requires KernelOk(tables, dirs, kernel, kernelPts) && KernelOk(tables[d := tables[kernel]], dirs + {d}, kernel, kernelPts)
    requires KernelSame(tables, tables[d := tables[kernel]], dirs, kernelPts)
    requires forall e, va: Word :: e in dirs && IsUserVaddr(va) ==> Pte(tables[d := tables[kernel]], e, va) == Pte(tables, e, va)
    requires forall va: Word :: IsUserVaddr(va) ==> Pte(tables[d := tables[kernel]], d, va) == 0
    ensures forall va: Word :: IsUserVaddr(va) ==> Walk(tables[d := tables[kernel]], d, va) == Fault
    ensures forall va: Word :: !IsUserVaddr(va) ==> Walk(tables[d := tables[kernel]], d, va) == Walk(tables[d := tables[kernel]], kernel, va)
    ensures forall e, va: Word :: e in dirs ==> Walk(tables[d := tables[kernel]], e, va) == Walk(tables, e, va)
  {
    hide DirsOk, KernelOk, KernelSame, Pte, Walk;
    var tables1 := tables[d := tables[kernel]];
    assert (dirs + {d}) * dirs == dirs;
    SameWalks(tables, tables1, dirs, dirs + {d}, kernel, kernelPts);
    forall va: Word
      ensures if IsUserVaddr(va) then Walk(tables1, d, va) == Fault else Walk(tables1, d, va) == Walk(tables1, kernel, va)
    {
      if IsUserVaddr(va) {
        UserWalk(tables1, dirs + {d}, d, va);
      } else {
        KernelShut(tables1, dirs + {d}, kernel, kernelPts, d, va);
      }
    }
  }

  lemma UnhookedKernel(tables: Tables, dirs: set<Word>, d: Word, gone: set<Word>, kernel: Word, kernelPts: set<Word>)
    requires KernelOk(tables, dirs, kernel, kernelPts) && d in dirs && d != kernel && forall e :: e in dirs ==> e in tables
    requires forall x :: x in gone ==> x == d || exists k :: 0 <= k < USER_ENTRIES && IsTable(tables, d, k, x)
    requires forall e :: e in dirs - {d} ==> e in tables - gone
    ensures KernelOk(tables - gone, dirs - {d}, kernel, kernelPts)
    ensures KernelSame(tables, tables - gone, (dirs - {d}) * dirs, kernelPts)
  {
    hide Reaches, PdeGetPt, Closed, KernelEntryOk;
    var tables1 := tables - gone;
    forall x | x in gone
      ensures x !in kernelPts
    {
      if x != d {
        var k :| 0 <= k < USER_ENTRIES && IsTable(tables, d, k, x);
        assert Reaches(Pde(tables, d, k));
      }
    }
    forall e, i: Word | e in dirs - {d}
      ensures Pde(tables1, e, i) == Pde(tables, e, i)
    {
    }
  }

  /** A copy of init_page_dir is a directory that maps no user page. */
  lemma DirAdded(tables: Tables, dirs: set<Word>, d: Word, kernelMap: seq<Word>)
    requires DirsOk(tables, dirs) && PtesOk(tables, dirs) && IsKernelPage(d) && d !in tables
    requires |kernelMap| == ENTRIES && forall i :: 0 <= i < USER_ENTRIES ==> kernelMap[i] == 0
    ensures DirsOk(tables[d := kernelMap], dirs + {d}) && PtesOk(tables[d := kernelMap], dirs + {d})
    ensures forall e, va: Word :: e in dirs && IsUserVaddr(va) ==> Pte(tables[d := kernelMap], e, va) == Pte(tables, e, va)
    ensures forall va: Word :: IsUserVaddr(va) ==> Pte(tables[d := kernelMap], d, va) == 0
  {
    hide Reaches, PdeGetPt, PdNo, PtNo;
    var tables1 := tables[d := kernelMap];
    ZeroReaches();
    forall e, i: Word | e in dirs + {d} && i < USER_ENTRIES
      ensures Pde(tables1, e, i) == if e == d then 0 else Pde(tables, e, i)
      ensures EntryOk(tables1, dirs + {d}, Pde(tables1, e, i))
    {
      assert e in dirs ==> EntryOk(tables, dirs, Pde(tables, e, i));
    }
    forall e, va: Word | e in dirs && IsUserVaddr(va)
      ensures Pte(tables1, e, va) == Pte(tables, e, va)
    {
      assert EntryOk(tables, dirs, Pde(tables, e, PdNo(va)));
    }
  }

  /** Writing the page table entry of upage remaps that page. */
  lemma Rewritten(tables: Tables, tables1: Tables, dirs: set<Word>, d: Word, upage: Word, word: Word)
    requires DirsOk(tables1, dirs) && d in dirs && IsUserVaddr(upage) && Pde(tables1, d, PdNo(upage)) != 0
    requires forall e, va: Word :: e in dirs && IsUserVaddr(va) ==> Pte(tables1, e, va) == Pte(tables, e, va)
    ensures Reaches(Pde(tables1, d, PdNo(upage)))
    ensures var pt := PdeGetPt(Pde(tables1, d, PdNo(upage)));
            && pt in tables1 && |tables1[pt]| == ENTRIES
            && Remapped(tables, Write(tables1, pt, PtNo(upage), word), dirs, d, upage, if Reaches(word) then Some(PteGetPage(word)) else None)
            && forall e, va: Word :: e in dirs && IsUserVaddr(va) ==>
                 Pte(Write(tables1, pt, PtNo(upage), word), e, va) ==
                 if e == d && PageOf(va) == PageOf(upage) then word else Pte(tables, e, va)
  {
    hide Reaches, PdeGetPt, PdNo, PtNo, PteGetPage, EntryOk, Unshared, Pte, Write, TablesOk;
    PteWritten(tables1, dirs, d, upage, word, d, upage);
    var pt := PdeGetPt(Pde(tables1, d, PdNo(upage)));
    var tables2 := Write(tables1, pt, PtNo(upage), word);
    forall e, va: Word | e in dirs && IsUserVaddr(va)
      ensures Pte(tables2, e, va) == if e == d && PageOf(va) == PageOf(upage) then word else Pte(tables, e, va)
    {
      PteWritten(tables1, dirs, d, upage, word, e, va);
    }
  }

  lemma PteKnown(tables: Tables, dirs: set<Word>, d: Word, va: Word)
    requires DirsOk(tables, dirs) && PtesOk(tables, dirs) && d in dirs && IsUserVaddr(va)
    ensures Present(Pte(tables, d, va)) ==> Reaches(Pte(tables, d, va))
  {
    hide PdNo, PtNo;
    assert EntryOk(tables, dirs, Pde(tables, d, PdNo(va)));
  }

  /** A page whose entry is not present is not mapped. */
  lemma Unmapped(tables: Tables, dirs: set<Word>, d: Word, upage: Word)
    requires d in dirs && IsUserVaddr(upage)
    ensures !Present(Pte(tables, d, upage)) ==> Remapped(tables, tables, dirs, d, upage, None)
  {
    forall e, va: Word | e in dirs && IsUserVaddr(va) && e == d && PageOf(va) == PageOf(upage)
      ensures Pte(tables, e, va) == Pte(tables, d, upage)
    {
      SamePage(va, upage);
    }
  }

  lemma Absent(pte: Word)
    requires Present(pte)
    ensures 0 <= pte - PTE_P && !Present(pte - PTE_P) && !Reaches(pte - PTE_P)
  {
  }

  lemma DirsKnown(tables: Tables, dirs: set<Word>)
    requires DirsOk(tables, dirs)
    ensures forall d :: d in dirs ==> d in tables
  {
  }

  lemma NullNotDir(tables: Tables, dirs: set<Word>)
    requires DirsOk(tables, dirs)
    ensures 0 !in dirs
  {
  }

  lemma PresentReaches(tables: Tables, dirs: set<Word>, d: Word, i: Word)
    requires DirsOk(tables, dirs) && d in dirs && i < USER_ENTRIES && Present(Pde(tables, d, i))
    ensures Reaches(Pde(tables, d, i)) && PdeGetPt(Pde(tables, d, i)) in tables && PdeGetPt(Pde(tables, d, i)) !in dirs
    ensures IsTable(tables, d, i, PdeGetPt(Pde(tables, d, i)))
  {
    assert EntryOk(tables, dirs, Pde(tables, d, i));
  }

  lemma TableShape(tables: Tables, dirs: set<Word>, pt: Word)
    requires DirsOk(tables, dirs) && PtesOk(tables, dirs) && pt in tables && pt !in dirs
    ensures |tables[pt]| == ENTRIES
    ensures forall j :: 0 <= j < ENTRIES && Present(tables[pt][j]) ==> Reaches(tables[pt][j])
  {
  }

  lemma FramesEnd(t: seq<Word>)
    ensures FramesFrom(t, |t|) == []
  {
  }

  lemma FramesNext(t: seq<Word>, j: nat, before: seq<Word>, freed: seq<Word>)
    requires j < |t| && (Present(t[j]) ==> Reaches(t[j]))
    requires freed == if Present(t[j]) && Reaches(t[j]) then before + [PteGetPage(t[j])] else before
    ensures before + FramesFrom(t, j) == freed + FramesFrom(t, j + 1)
  {
    hide PteGetPage;
  }

  lemma FreedEnd(tables: Tables, d: Word)
    ensures FreedFrom(tables, d, USER_ENTRIES) == []
  {
  }

  lemma FreedNext(tables: Tables, d: Word, i: nat, before: seq<Word>, freed: seq<Word>)
    requires TablesOk(tables) && d in tables && i < USER_ENTRIES
    requires freed == if Present(tables[d][i]) && Reaches(tables[d][i]) && PdeGetPt(tables[d][i]) in tables
                      then before + FramesFrom(tables[PdeGetPt(tables[d][i])], 0) + [PdeGetPt(tables[d][i])] else before
    ensures before + FreedFrom(tables, d, i) == freed + FreedFrom(tables, d, i + 1)
  {
    hide FramesFrom, PdeGetPt;
  }

  /** Directory d and its page tables can go: no other directory uses them. */
  lemma Unhooked(tables: Tables, dirs: set<Word>, d: Word, gone: set<Word>)
    requires DirsOk(tables, dirs) && PtesOk(tables, dirs) && d in dirs && d in gone
    requires forall x :: x in gone ==> x == d || exists k :: 0 <= k < USER_ENTRIES && IsTable(tables, d, k, x)
    ensures DirsOk(tables - gone, dirs - {d}) && PtesOk(tables - gone, dirs - {d})
    ensures forall e :: e in dirs - {d} ==> e in tables - gone && (tables - gone)[e] == tables[e]
    ensures forall e, va: Word :: e in dirs - {d} && IsUserVaddr(va) ==> Pte(tables - gone, e, va) == Pte(tables, e, va)
    ensures forall e, va: Word :: e in dirs - {d} && IsUserVaddr(va) ==> Frame(tables - gone, e, va) == Frame(tables, e, va)
  {
    hide Reaches, PdeGetPt, PdNo, PtNo, PteGetPage;
    var tables1 := tables - gone;
    forall x | x in gone && x != d
      ensures x !in dirs
    {
      var k :| 0 <= k < USER_ENTRIES && IsTable(tables, d, k, x);
      assert EntryOk(tables, dirs, Pde(tables, d, k));
      ZeroReaches();
    }
    forall e, i: Word | e in dirs - {d}
      ensures Pde(tables1, e, i) == Pde(tables, e, i)
    {
    }
    forall e, i: Word | e in dirs - {d} && i < USER_ENTRIES
      ensures EntryOk(tables1, dirs - {d}, Pde(tables, e, i))
      ensures Pde(tables, e, i) != 0 ==> PdeGetPt(Pde(tables, e, i)) !in gone
    {
      TableStays(tables, dirs, d, gone, e, i);
    }
    forall e, va: Word | e in dirs - {d} && IsUserVaddr(va)
      ensures Pte(tables1, e, va) == Pte(tables, e, va)
    {
      assert EntryOk(tables, dirs, Pde(tables, e, PdNo(va)));
    }
  }

  lemma TableStays(tables: Tables, dirs: set<Word>, d: Word, gone: set<Word>, e: Word, i: Word)
    requires DirsOk(tables, dirs) && d in dirs && e in dirs && e != d && i < USER_ENTRIES
    requires forall x :: x in gone ==> x == d || exists k :: 0 <= k < USER_ENTRIES && IsTable(tables, d, k, x)
    ensures EntryOk(tables - gone, dirs - {d}, Pde(tables, e, i))
    ensures Pde(tables, e, i) != 0 ==> Reaches(Pde(tables, e, i)) && PdeGetPt(Pde(tables, e, i)) !in gone
  {
    hide Reaches, PdeGetPt;
    var pde := Pde(tables, e, i);
    assert EntryOk(tables, dirs, pde);
  }

  /** pagedir_destroy() frees the mapped pages, the page tables and the directory, and no page
      twice exactly if the directory is injective. */
  lemma DestroyFreesOnce(tables: Tables, dirs: set<Word>, d: Word)
    requires DirsOk(tables, dirs) && d in dirs
    ensures NoDuplicates(FreedFrom(tables, d, 0) + [d]) <==> Injective(tables, d)
    ensures forall x :: x in FreedFrom(tables, d, 0) + [d] <==> x == d || FreesFrom(tables, d, 0, x)
  {
    hide NoDuplicates, FreedFrom, Injective, InjectiveFrom, FreesFrom;
    FreedExact(tables, d, 0);
    Joined(FreedFrom(tables, d, 0), [d]);
    Single(d);
    InjectiveParts(tables, dirs, d);
  }

  /** The page tables of a directory differ from each other and from the directory. */
  lemma InjectiveParts(tables: Tables, dirs: set<Word>, d: Word)
    requires DirsOk(tables, dirs) && d in dirs
    ensures Injective(tables, d) <==> InjectiveFrom(tables, d, 0) && !FreesFrom(tables, d, 0, d)
  {
    hide Reaches, PdeGetPt, PteGetPage;
    forall k | 0 <= k < USER_ENTRIES
      ensures !IsTable(tables, d, k, d)
    {
      ZeroReaches();
      assert EntryOk(tables, dirs, Pde(tables, d, k));
    }
    forall k, l, x | 0 <= k < l < USER_ENTRIES
      ensures !(IsTable(tables, d, k, x) && IsTable(tables, d, l, x))
    {
      assert Unshared(Pde(tables, d, k), Pde(tables, d, l));
    }
    if Injective(tables, d) {
      InjectiveSplits(tables, d);
    }
    if InjectiveFrom(tables, d, 0) && !FreesFrom(tables, d, 0, d) {
      InjectiveJoins(tables, d);
    }
  }

  lemma InjectiveSplits(tables: Tables, d: Word)
    requires Injective(tables, d) && forall k :: 0 <= k < USER_ENTRIES ==> !IsTable(tables, d, k, d)
    requires forall k, l, x :: 0 <= k < l < USER_ENTRIES ==> !(IsTable(tables, d, k, x) && IsTable(tables, d, l, x))
    ensures InjectiveFrom(tables, d, 0) && !FreesFrom(tables, d, 0, d)
  {
    hide IsTable, IsFrame;
  }

  lemma InjectiveJoins(tables: Tables, d: Word)
    requires InjectiveFrom(tables, d, 0) && !FreesFrom(tables, d, 0, d)
    ensures Injective(tables, d)
  {
    hide IsTable, IsFrame;
    forall i, j: nat, x | 0 <= i < USER_ENTRIES && IsFrame(tables, d, i, j, x)
      ensures x != d
    {
      assert FreesFor(tables, d, i, x) && FreesFrom(tables, d, 0, x);
    }
    forall i, j: nat, k, x | 0 <= i < USER_ENTRIES && 0 <= k < USER_ENTRIES && IsFrame(tables, d, i, j, x)
      ensures !IsTable(tables, d, k, x)
      ensures i != k ==> !FreesFor(tables, d, k, x)
    {
      assert FreesFor(tables, d, i, x) && FreesFrom(tables, d, 0, x) && EntryInjective(tables, d, i);
      assert IsTable(tables, d, k, x) ==> FreesFor(tables, d, k, x);
    }
    forall i, j: nat, k, l: nat, x | 0 <= i < USER_ENTRIES && 0 <= k < USER_ENTRIES && IsFrame(tables, d, i, j, x) && IsFrame(tables, d, k, l, x)
      ensures i == k && j == l
    {
      assert FreesFor(tables, d, i, x) && FreesFor(tables, d, k, x) && EntryInjective(tables, d, i);
    }
  }

  /** A directory that maps one frame at the first two pages. */
  ghost function TwiceMapped(d: Word, pt: Word, f: Word): Tables
    requires IsKernelPage(pt) && IsKernelPage(f)
  {
    var entry := PteCreateUser(f, true);
    var dir: seq<Word>, table: seq<Word> := ZeroTable()[0 := PdeCreate(pt)], ZeroTable()[0 := entry][1 := entry];
    map[d := dir][pt := table]
  }

  lemma TwiceMappedOk(d: Word, pt: Word, f: Word)
    requires IsKernelPage(d) && IsKernelPage(pt) && IsKernelPage(f) && d != pt
    ensures var tables := TwiceMapped(d, pt, f);
            && DirsOk(tables, {d}) && Reaches(Pde(tables, d, 0)) && PdeGetPt(Pde(tables, d, 0)) == pt
            && pt in tables && tables[pt][0] == tables[pt][1] == PteCreateUser(f, true)
  {
    hide Reaches, PdeCreate, PteCreateUser, PdeGetPt;
    var tables := TwiceMapped(d, pt, f);
    EntryRoundTrip(pt, true);
    ZeroReaches();
    forall i: Word | 0 < i < USER_ENTRIES
      ensures Pde(tables, d, i) == 0
    {
    }
  }

  /** Its frame is freed twice. */
  lemma MappedTwice(d: Word, pt: Word, f: Word)
    requires IsKernelPage(d) && IsKernelPage(pt) && IsKernelPage(f) && d != pt
    ensures var tables := TwiceMapped(d, pt, f);
            && DirsOk(tables, {d}) && IsFrame(tables, d, 0, 0, f) && IsFrame(tables, d, 0, 1, f)
            && !NoDuplicates(FreedFrom(tables, d, 0) + [d])
  {
    hide DirsOk, NoDuplicates, FreedFrom, TwiceMapped, Reaches;
    var tables := TwiceMapped(d, pt, f);
    TwiceMappedOk(d, pt, f);
    EntryRoundTrip(f, true);
    TableLengths(tables, {d}, pt);
    assert 1 < |tables[pt]|;
    assert IsFrame(tables, d, 0, 0, f) && IsFrame(tables, d, 0, 1, f);
    DestroyFreesOnce(tables, {d}, d);
  }

  lemma TableLengths(tables: Tables, dirs: set<Word>, a: Word)
    requires DirsOk(tables, dirs) && a in tables
    ensures |tables[a]| == ENTRIES
  {
  }
}
