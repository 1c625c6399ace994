/** The block allocator (threads/malloc.c): malloc(), calloc(), realloc() and free() over size
    classes whose blocks are carved from one-page arenas, and big blocks of whole pages. */
module Malloc {
  import opened Common
  import opened Bytes
  import opened NonLinear
  import opened Bitmaps
  import opened Palloc
  import opened Arenas

  const CLASSES: nat := 7

  /** The largest request whose page count does not wrap to too few pages. */
  const SIZE_LIMIT: nat := ADDRESS_LIMIT - ARENA

  /** Block sizes double from 16 bytes on. */
  function ClassSize(k: nat): (s: nat)
    ensures s >= 16
  {
    if k == 0 then 16 else 2 * ClassSize(k - 1)
  }

  lemma ClassSizes()
    ensures ClassSize(0) == 16 && ClassSize(1) == 32 && ClassSize(2) == 64 && ClassSize(3) == 128
    ensures ClassSize(4) == 256 && ClassSize(5) == 512 && ClassSize(6) == 1024 && ClassSize(7) == 2048
  {
    assert ClassSize(3) == 128;
    assert ClassSize(5) == 512;
  }

  /** The descriptors as malloc_init() sets them up, whatever their lists. */
  ghost predicate ClassesOk(descs: seq<Desc>) {
    |descs| == CLASSES && forall k :: 0 <= k < CLASSES ==> descs[k].blockSize == ClassSize(k)
  }

  /** DIV_ROUND_UP (size + sizeof *a, PGSIZE) in 32-bit arithmetic. */
  function PagesFor(size: nat): nat {
    (size + ARENA + PGSIZE - 1) % ADDRESS_LIMIT / PGSIZE
  }

  // ----- the steps, with the pages under them -----

  /** The invariant of the whole allocator between the steps of an operation. */
  ghost predicate Sound(descs: seq<Desc>, arenas: Headers, live: set<nat>, bits: seq<bool>, base: nat, others: set<nat>) {
    ClassesOk(descs) && Consistent(descs, arenas, live) && PagesFine(arenas, bits, base, others) && base % PGSIZE == 0 && 0 < base
  }

  /** No small arena but the one at a is wholly free. */
  ghost predicate NoneIdleBut(descs: seq<Desc>, arenas: Headers, a: nat) {
    forall b :: b in arenas && b != a && arenas[b].Small? && arenas[b].desc < |descs| ==>
      arenas[b].freeCnt < descs[arenas[b].desc].blocksPerArena
  }

  /** The blocks in xs offer the same bytes as before. */
  ghost predicate SizesKept(xs: set<nat>, descs: seq<Desc>, arenas: Headers, descs1: seq<Desc>, arenas1: Headers) {
    forall x :: x in xs ==> BlockSize(x, arenas1, descs1) == BlockSize(x, arenas, descs)
  }

  lemma SoundAligned(descs: seq<Desc>, arenas: Headers, live: set<nat>, bits: seq<bool>, base: nat, others: set<nat>)
    requires Sound(descs, arenas, live, bits, base, others)
    ensures Aligned(arenas)
  {
  }

  lemma SizesKeptButFor(xs: set<nat>, descs: seq<Desc>, arenas: Headers, k: nat, e: Desc, arenas1: Headers, a: nat)
    requires k < |descs| && SameShape(descs[k], e) && SameButFor(a, arenas, arenas1)
    requires (a in arenas && a in arenas1 && arenas[a].Small? && arenas1[a].Small? && arenas[a].desc == arenas1[a].desc)
          || forall x :: x in xs ==> PageOf(x) != a
    ensures SizesKept(xs, descs, arenas, descs[k := e], arenas1)
  {
    hide PageOf;
  }

  lemma SizesKeptSame(xs: set<nat>, descs: seq<Desc>, arenas: Headers)
    ensures SizesKept(xs, descs, arenas, descs, arenas)
  {
  }

  lemma SizesKeptTwice(xs: set<nat>, descs: seq<Desc>, arenas: Headers, descs1: seq<Desc>, arenas1: Headers, descs2: seq<Desc>, arenas2: Headers)
    requires SizesKept(xs, descs, arenas, descs1, arenas1) && SizesKept(xs, descs1, arenas1, descs2, arenas2)
    ensures SizesKept(xs, descs, arenas, descs2, arenas2)
  {
    hide BlockSize;
  }

  lemma LiveInPages(descs: seq<Desc>, arenas: Headers, live: set<nat>, a: nat)
    requires Consistent(descs, arenas, live) && a !in arenas
    ensures forall x :: x in live ==> PageOf(x) != a
  {
    hide PageOf;
    forall x | x in live
      ensures PageOf(x) != a
    {
      assert BlockOk(x, arenas, descs);
    }
  }

  /** Taking the first block of a free list. */
  lemma TakeStep(descs: seq<Desc>, arenas: Headers, live: set<nat>, bits: seq<bool>, base: nat, others: set<nat>, k: nat)
    requires Sound(descs, arenas, live, bits, base, others) && k < |descs| && descs[k].freeList != []
    requires NoneIdleBut(descs, arenas, PageOf(descs[k].freeList[0]))
    ensures BlockOk(descs[k].freeList[0], arenas, descs)
    ensures var b := descs[k].freeList[0];
            var a := PageOf(b);
            var descs1 := descs[k := descs[k].(freeList := descs[k].freeList[1..])];
            && a in arenas && arenas[a].Small? && arenas[a].desc == k && 0 < arenas[a].freeCnt && b !in live
            && Sound(descs1, arenas[a := Small(k, arenas[a].freeCnt - 1)], live + {b}, bits, base, others)
            && NoneIdle(descs1, arenas[a := Small(k, arenas[a].freeCnt - 1)])
            && SizesKept(live, descs, arenas, descs1, arenas[a := Small(k, arenas[a].freeCnt - 1)])
            && BlockSize(b, arenas[a := Small(k, arenas[a].freeCnt - 1)], descs1) == ClassSize(k)
            && 0 < b
  {
    hide PageOf, Consistent, PagesFine, BlockOk, ClassSize;
    var b, e := descs[k].freeList[0], descs[k].(freeList := descs[k].freeList[1..]);
    var a := PageOf(b);
    SoundAligned(descs, arenas, live, bits, base, others);
    TakeBlock(descs, arenas, live, k);
    FreeIsBlock(descs, arenas, live, k, b);
    var arenas1 := arenas[a := Small(k, arenas[a].freeCnt - 1)];
    PagesSame(arenas, bits, base, others, a, Small(k, arenas[a].freeCnt - 1));
    SizesKeptButFor(live, descs, arenas, k, e, arenas1, a);
    BlockAboveBase(descs, arenas, live, bits, base, others, b);
  }

  lemma BlockAboveBase(descs: seq<Desc>, arenas: Headers, live: set<nat>, bits: seq<bool>, base: nat, others: set<nat>, x: nat)
    requires Sound(descs, arenas, live, bits, base, others) && BlockOk(x, arenas, descs)
    ensures 0 < PageOf(x) <= x
  {
  }

  /** Carving a fresh page into the blocks of an empty free list. */
  lemma CarveStep(descs: seq<Desc>, arenas: Headers, live: set<nat>, bits: seq<bool>, base: nat, others: set<nat>, k: nat, a: nat, l: seq<nat>)
    requires Sound(descs, arenas, live, bits, base, others) && NoneIdle(descs, arenas)
    requires k < |descs| && descs[k].freeList == [] && |l| == descs[k].blocksPerArena
    requires forall i :: 0 <= i < |l| ==> l[i] == BlockAt(a, descs[k].blockSize, i)
    requires base <= a && a % PGSIZE == 0 && AllAre(bits, (a - base) / PGSIZE, 1, false)
    ensures var descs1 := descs[k := descs[k].(freeList := l)];
            var arenas1 := arenas[a := Small(k, descs[k].blocksPerArena)];
            && Sound(descs1, arenas1, live, SetRange(bits, (a - base) / PGSIZE, 1, true), base, others)
            && NoneIdleBut(descs1, arenas1, a) && SizesKept(live, descs, arenas, descs1, arenas1)
            && |l| >= 2 && PageOf(l[0]) == a
  {
    hide Consistent, PagesFine, AllAre, ClassSize, PageOf, BlockAt;
    var d := descs[k];
    var arena := Small(k, d.blocksPerArena);
    SoundAligned(descs, arenas, live, bits, base, others);
    PagesTaken(arenas, bits, base, others, a, arena);
    AddArena(descs, arenas, live, k, a, l);
    LiveInPages(descs, arenas, live, a);
    OneArenaChanged(arenas, a, arena);
    SizesKeptButFor(live, descs, arenas, k, d.(freeList := l), arenas[a := arena], a);
    DescFacts(descs, arenas, live, k);
    BlockInside(a, d, 0);
  }

  lemma DescFacts(descs: seq<Desc>, arenas: Headers, live: set<nat>, k: nat)
    requires Consistent(descs, arenas, live) && k < |descs|
    ensures DescOk(descs[k]) && ListOk(k, descs[k], arenas)
  {
  }

  /** Handing out n fresh pages as a big block. */
  lemma BigStep(descs: seq<Desc>, arenas: Headers, live: set<nat>, bits: seq<bool>, base: nat, others: set<nat>, a: nat, n: nat)
    requires Sound(descs, arenas, live, bits, base, others) && NoneIdle(descs, arenas) && 0 < n
    requires base <= a && a % PGSIZE == 0 && AllAre(bits, (a - base) / PGSIZE, n, false)
    ensures var arenas1 := arenas[a := Big(n)];
            && Sound(descs, arenas1, live + {a + ARENA}, SetRange(bits, (a - base) / PGSIZE, n, true), base, others)
            && NoneIdle(descs, arenas1) && SizesKept(live, descs, arenas, descs, arenas1)
            && a + ARENA !in live && BlockSize(a + ARENA, arenas1, descs) == PGSIZE * n - ARENA
  {
    hide Consistent, PagesFine, AllAre, ClassSize, PageOf;
    SoundAligned(descs, arenas, live, bits, base, others);
    PagesTaken(arenas, bits, base, others, a, Big(n));
    AddBig(descs, arenas, live, a, n);
    LiveInPages(descs, arenas, live, a);
    PageOfInside(a, a + ARENA);
    OneArenaChanged(arenas, a, Big(n));
    SizesKeptButFor(live, descs, arenas, 0, descs[0], arenas[a := Big(n)], a);
    assert descs[0 := descs[0]] == descs;
  }

  /** Putting a live block of a small arena back on its list. */
  lemma PutStep(descs: seq<Desc>, arenas: Headers, live: set<nat>, bits: seq<bool>, base: nat, others: set<nat>, b: nat)
    requires Sound(descs, arenas, live, bits, base, others) && NoneIdle(descs, arenas) && b in live
    requires PageOf(b) in arenas && arenas[PageOf(b)].Small?
    ensures var a := PageOf(b);
            var k := arenas[a].desc;
            && k < |descs| && arenas[a].freeCnt < descs[k].blocksPerArena
            && var descs1 := descs[k := descs[k].(freeList := [b] + descs[k].freeList)];
               var arenas1 := arenas[a := Small(k, arenas[a].freeCnt + 1)];
            && Sound(descs1, arenas1, live - {b}, bits, base, others) && NoneIdleBut(descs1, arenas1, a)
            && SizesKept(live - {b}, descs, arenas, descs1, arenas1)
  {
    hide Consistent, PagesFine, ClassSize, PageOf;
    var a := PageOf(b);
    var k := arenas[a].desc;
    SoundAligned(descs, arenas, live, bits, base, others);
    PutBlock(descs, arenas, live, b);
    var arena := Small(k, arenas[a].freeCnt + 1);
    PagesSame(arenas, bits, base, others, a, arena);
    OneArenaChanged(arenas, a, arena);
    SizesKeptButFor(live - {b}, descs, arenas, k, descs[k].(freeList := [b] + descs[k].freeList), arenas[a := arena], a);
  }

  /** Giving a wholly free arena back to the pool. */
  lemma DropStep(descs: seq<Desc>, arenas: Headers, live: set<nat>, bits: seq<bool>, base: nat, others: set<nat>, a: nat, l: seq<nat>)
    requires Sound(descs, arenas, live, bits, base, others) && NoneIdleBut(descs, arenas, a)
    requires a in arenas && arenas[a].Small? && arenas[a].desc < |descs| && arenas[a].freeCnt == descs[arenas[a].desc].blocksPerArena
    requires NoDuplicates(l) && forall x :: x in l <==> x in descs[arenas[a].desc].freeList && PageOf(x) != a
    ensures a % PGSIZE == 0 && base <= a && AllAre(bits, (a - base) / PGSIZE, 1, true)
    ensures var descs1 := descs[arenas[a].desc := descs[arenas[a].desc].(freeList := l)];
            && Sound(descs1, arenas - {a}, live, SetRange(bits, (a - base) / PGSIZE, 1, false), base, others)
            && NoneIdle(descs1, arenas - {a}) && SizesKept(live, descs, arenas, descs1, arenas - {a})
            && forall x :: x in live ==> PageOf(x) != a
  {
    hide Consistent, PagesFine, AllAre, ClassSize, PageOf, NoDuplicates;
    var k := arenas[a].desc;
    var e := descs[k].(freeList := l);
    SoundAligned(descs, arenas, live, bits, base, others);
    DropArena(descs, arenas, live, a, l);
    PagesReturned(arenas, bits, base, others, a);
    LiveInPages(descs[k := e], arenas - {a}, live, a);
    SizesKeptButFor(live, descs, arenas, k, e, arenas - {a}, a);
  }

  lemma BlockOfBig(b: nat, arenas: Headers, descs: seq<Desc>)
    requires BlockOk(b, arenas, descs) && PageOf(b) in arenas && arenas[PageOf(b)].Big?
    ensures b == PageOf(b) + ARENA
  {
    hide PageOf;
  }

  lemma SomePages(arenas: Headers, bits: seq<bool>, base: nat, others: set<nat>, a: nat)
    requires PagesFine(arenas, bits, base, others) && a in arenas
    ensures 0 < PagesIn(arenas[a])
  {
  }

  lemma IdleDropped(descs: seq<Desc>, arenas: Headers, a: nat)
    requires NoneIdle(descs, arenas)
    ensures NoneIdle(descs, arenas - {a})
  {
  }

  /** Giving the pages of a big block back. */
  lemma DropBigStep(descs: seq<Desc>, arenas: Headers, live: set<nat>, bits: seq<bool>, base: nat, others: set<nat>, b: nat)
    requires Sound(descs, arenas, live, bits, base, others) && NoneIdle(descs, arenas) && b in live
    requires PageOf(b) in arenas && arenas[PageOf(b)].Big?
    ensures var a := PageOf(b);
            var n := PagesIn(arenas[a]);
            && b == a + ARENA && 0 < n
            && a % PGSIZE == 0 && base <= a && AllAre(bits, (a - base) / PGSIZE, n, true)
            && Sound(descs, arenas - {a}, live - {b}, SetRange(bits, (a - base) / PGSIZE, n, false), base, others)
            && NoneIdle(descs, arenas - {a}) && SizesKept(live - {b}, descs, arenas, descs, arenas - {a})
            && forall x :: x in live - {b} ==> PageOf(x) != a
  {
    hide Consistent, AllAre, ClassSize, PageOf, PagesFine, SetRange, SizesKept, BlockOk, NoneIdle;
    var a := PageOf(b);
    SoundAligned(descs, arenas, live, bits, base, others);
    LiveFacts(descs, arenas, live, b);
    BlockOfBig(b, arenas, descs);
    SomePages(arenas, bits, base, others, a);
    IdleDropped(descs, arenas, a);
    DropBig(descs, arenas, live, a);
    PagesReturned(arenas, bits, base, others, a);
    LiveInPages(descs, arenas - {a}, live - {b}, a);
    SizesKeptButFor(live - {b}, descs, arenas, 0, descs[0], arenas - {a}, a);
    assert descs[0 := descs[0]] == descs;
  }

  // ----- sizes -----

  /** The first descriptor, from k on, whose blocks hold size bytes; CLASSES if there is none. */
  function ClassFor(size: nat, k: nat): (c: nat)
    requires k <= CLASSES
    ensures k <= c <= CLASSES
    ensures c < CLASSES ==> size <= ClassSize(c)
    ensures c > k ==> ClassSize(c - 1) < size
    decreases CLASSES - k
  {
    if k == CLASSES || ClassSize(k) >= size then k else ClassFor(size, k + 1)
  }

  /** A block of the class found is at most twice as large as needed. */
  lemma ClassForTight(size: nat)
    ensures ClassFor(size, 0) < CLASSES <==> size <= 1024
    ensures size <= 1024 ==> ClassSize(ClassFor(size, 0)) == 16 || ClassSize(ClassFor(size, 0)) < 2 * size
  {
    hide ClassSize, ClassFor;
    ClassSizes();
    var c := ClassFor(size, 0);
    if c > 0 {
      ClassDoubles(c);
      ClassGrows(c - 1, 6);
    }
    if c < CLASSES {
      ClassGrows(c, 6);
    }
  }

  lemma ClassDoubles(c: nat)
    requires c > 0
    ensures ClassSize(c) == 2 * ClassSize(c - 1)
  {
  }

  lemma {:induction false} ClassGrows(c: nat, d: nat)
    ensures c <= d ==> ClassSize(c) <= ClassSize(d)
  {
    if c < d {
      ClassGrows(c, d - 1);
    }
  }

  /** The pages of a big block hold the request exactly when the sum that counts them does not
      wrap; where only the rounding up wraps, no pages are asked for and nothing is returned. */
  lemma PagesForEnough(size: nat)
    requires 0 < size < ADDRESS_LIMIT && 0 < PagesFor(size)
    ensures PGSIZE * PagesFor(size) >= ARENA && FitsRequest(PGSIZE * PagesFor(size) - ARENA, size)
  {
  }

  /** What a block of n bytes is worth to a request: it is large enough exactly up to the
      limit, and past it is the rest of a single page. */
  predicate FitsRequest(n: nat, size: nat) {
    n < ADDRESS_LIMIT && (n >= size <==> size <= SIZE_LIMIT) && (size > SIZE_LIMIT ==> n == PGSIZE - ARENA)
  }

  /** A request of 2^32 - 11 bytes gets one page. */
  lemma UndersizedBlock()
    ensures PagesFor(0xffff_fff5) == 1 && PGSIZE * PagesFor(0xffff_fff5) - ARENA < 0xffff_fff5
    ensures PagesFor(SIZE_LIMIT) == 0
  {
  }

  /** What calloc() checks of its product, taken modulo 2^32. */
  predicate ProductPasses(a: nat, b: nat) {
    a * b % ADDRESS_LIMIT >= a && a * b % ADDRESS_LIMIT >= b
  }

  /** A product that wraps and passes, and one that does not wrap, passes, and overruns the page
      that malloc() returns for it. */
  lemma ProductsMissed()
    ensures ProductPasses(0x1_0001, 0x1_0001) && 0x1_0001 * 0x1_0001 % ADDRESS_LIMIT == 0x2_0001 < 0x1_0001 * 0x1_0001
    ensures ProductPasses(0xffff_fff5, 1) && 0xffff_fff5 * 1 % ADDRESS_LIMIT > SIZE_LIMIT
    ensures PGSIZE * PagesFor(0xffff_fff5) - ARENA < 0xffff_fff5
  {
  }

  /** malloc() finds no memory for size bytes. */
  ghost predicate NoRoom(size: nat, descs: seq<Desc>, bits: seq<bool>) {
    var c := ClassFor(size, 0);
    if c < |descs| then descs[c].freeList == [] && FirstGroup(bits, 0, 1, false) < 0
    else PagesFor(size) == 0 || FirstGroup(bits, 0, PagesFor(size), false) < 0
  }

  /** That is: for a block, the list of the smallest class that holds size bytes is empty and no page
      is free; for pages, there are not as many free ones in a row. */
  lemma NoRoomExact(size: nat, descs: seq<Desc>, bits: seq<bool>, c: nat)
    requires ClassesOk(descs)
    ensures c < 7 && size <= ClassSize(c) && (c == 0 || ClassSize(c - 1) < size) ==>
              (NoRoom(size, descs, bits) <==> descs[c].freeList == [] && forall i :: 0 <= i < |bits| ==> bits[i])
    ensures size > 1024 && PagesFor(size) > 0 ==>
              (NoRoom(size, descs, bits) <==> !exists start: nat :: AllAre(bits, start, PagesFor(size), false))
  {
    hide FirstGroup, ClassSize, PagesFor, AllAre;
    ClassForTight(size);
    SmallestClass(size, c);
    GroupExact(bits, 1);
    GroupExact(bits, PagesFor(size));
    OneFree(bits);
  }

  lemma SmallestClass(size: nat, c: nat)
    ensures c < 7 && size <= ClassSize(c) && (c == 0 || ClassSize(c - 1) < size) ==> ClassFor(size, 0) == c
  {
    hide ClassSize, ClassFor;
    var d := ClassFor(size, 0);
    if c < 7 && size <= ClassSize(c) && (c == 0 || ClassSize(c - 1) < size) {
      if c < d {
        ClassGrows(c, d - 1);
      } else if d < c {
        ClassGrows(d, c - 1);
      }
    }
  }

  lemma GroupExact(bits: seq<bool>, cnt: nat)
    ensures FirstGroup(bits, 0, cnt, false) < 0 <==> !exists start: nat :: AllAre(bits, start, cnt, false)
  {
    hide FirstGroup, AllAre;
    if start: nat :| AllAre(bits, start, cnt, false) {
      FirstGroupIsLowest(bits, 0, cnt, false, start);
    }
  }

  lemma OneFree(bits: seq<bool>)
    ensures (exists start: nat :: AllAre(bits, start, 1, false)) <==> exists i :: 0 <= i < |bits| && !bits[i]
  {
    if i :| 0 <= i < |bits| && !bits[i] {
      assert AllAre(bits, i, 1, false);
    }
    if start: nat :| AllAre(bits, start, 1, false) {
      assert !bits[start];
    }
  }

  // ----- the bytes in the blocks -----

  type Memory = nat -> Byte

  /** memset() */
  function Fill(m: Memory, lo: nat, n: nat, v: Byte): Memory {
    (p: nat) => if lo <= p < lo + n then v else m(p)
  }

  /** memcpy() between ranges that do not overlap */
  function Copy(m: Memory, dst: nat, src: nat, n: nat): Memory {
    (p: nat) => if dst <= p < dst + n then m(p - dst + src) else m(p)
  }

  /** The n bytes at address lo. */
  ghost function ReadAt(m: Memory, lo: nat, n: nat): seq<Byte> {
    seq(n, i requires 0 <= i < n => m(lo + i))
  }

  function Min(a: nat, b: nat): nat {
    if a < b then a else b
  }

  /** The bytes of the blocks in xs are the same in m and m1. */
  ghost predicate BytesKept(xs: set<nat>, descs: seq<Desc>, arenas: Headers, m: Memory, m1: Memory) {
    forall x, p: nat :: x in xs && x <= p < x + BlockSize(x, arenas, descs) ==> m1(p) == m(p)
  }

  /** Changing the bytes of one block leaves those of the others. */
  lemma OthersKept(descs: seq<Desc>, arenas: Headers, live: set<nat>, bits: seq<bool>, base: nat, others: set<nat>, b: nat, m: Memory, m1: Memory)
    requires Sound(descs, arenas, live, bits, base, others) && b in live
    requires forall p: nat :: !(b <= p < b + BlockSize(b, arenas, descs)) ==> m1(p) == m(p)
    ensures BytesKept(live - {b}, descs, arenas, m, m1)
  {
    hide PageOf, Consistent, PagesOk, PagesCounted, OthersApart, BlockOk, BlockSize, ClassSize;
    forall x, p: nat | x in live - {b} && x <= p < x + BlockSize(x, arenas, descs)
      ensures m1(p) == m(p)
    {
      LiveFacts(descs, arenas, live, x);
      LiveFacts(descs, arenas, live, b);
      if x < b {
        BlocksDisjoint(descs, arenas, live, bits, base, x, b);
      } else {
        BlocksDisjoint(descs, arenas, live, bits, base, b, x);
      }
    }
  }

  /** Overwriting the pages of one arena leaves the blocks of the others. */
  lemma OtherPagesKept(descs: seq<Desc>, arenas: Headers, live: set<nat>, bits: seq<bool>, base: nat, others: set<nat>, xs: set<nat>, a: nat, m: Memory, v: Byte)
    requires Sound(descs, arenas, live, bits, base, others) && a in arenas && xs <= live
    requires forall x :: x in xs ==> PageOf(x) != a
    ensures BytesKept(xs, descs, arenas, m, Fill(m, a, PGSIZE * PagesIn(arenas[a]), v))
  {
    hide PageOf, Consistent, PagesOk, PagesCounted, OthersApart, BlockOk, BlockSize, ClassSize, PagesIn;
    var m1 := Fill(m, a, PGSIZE * PagesIn(arenas[a]), v);
    forall x, p: nat | x in xs && x <= p < x + BlockSize(x, arenas, descs)
      ensures m1(p) == m(p)
    {
      LiveFacts(descs, arenas, live, x);
      BlockInArena(descs, arenas, live, bits, base, x);
      LiveHasArena(descs, arenas, x);
      ArenasApart(arenas, bits, base, a, PageOf(x));
      ArenasApart(arenas, bits, base, PageOf(x), a);
    }
  }

  lemma LiveHasArena(descs: seq<Desc>, arenas: Headers, x: nat)
    requires BlockOk(x, arenas, descs)
    ensures PageOf(x) in arenas
  {
  }

  lemma BytesKeptTwice(xs: set<nat>, descs: seq<Desc>, arenas: Headers, descs1: seq<Desc>, arenas1: Headers, m: Memory, m1: Memory, m2: Memory)
    requires BytesKept(xs, descs, arenas, m, m1) && SizesKept(xs, descs, arenas, descs1, arenas1)
    requires BytesKept(xs, descs1, arenas1, m1, m2)
    ensures BytesKept(xs, descs, arenas, m, m2)
  {
    hide BlockSize;
  }

  // ----- block_to_arena() -----

  /** The assertions of block_to_arena(): there is a header, and the block is aligned behind it. */
  ghost predicate ChecksPass(b: nat, arenas: Headers, descs: seq<Desc>) {
    && 0 < PageOf(b) && PageOf(b) in arenas
    && match arenas[PageOf(b)]
       case Small(k, _) => k < |descs| && 0 < descs[k].blockSize && (b % PGSIZE - ARENA) % descs[k].blockSize == 0
       case Big(_) => b % PGSIZE == ARENA
  }

  /** They hold of every block. */
  lemma ChecksAlwaysPass(descs: seq<Desc>, arenas: Headers, live: set<nat>, bits: seq<bool>, base: nat, others: set<nat>, b: nat)
    requires Sound(descs, arenas, live, bits, base, others) && BlockOk(b, arenas, descs)
    ensures ChecksPass(b, arenas, descs)
  {
    hide ListOk, ArenaOk, ClassSize, PagesCounted, OthersApart, AllAre;
    var a := PageOf(b);
    match arenas[a]
    case Small(k, _) =>
      var i :| 0 <= i < descs[k].blocksPerArena && b == BlockAt(a, descs[k].blockSize, i);
      BlockInside(a, descs[k], i);
    case Big(_) =>
  }

  lemma NoneIdleAnyway(descs: seq<Desc>, arenas: Headers, a: nat)
    requires NoneIdle(descs, arenas)
    ensures NoneIdleBut(descs, arenas, a)
  {
  }

  // ----- list_remove() -----

  function Remove(s: seq<nat>, x: nat): seq<nat> {
    if s == [] then [] else if s[0] == x then s[1..] else [s[0]] + Remove(s[1..], x)
  }

  lemma {:induction false} RemoveExact(s: seq<nat>, x: nat)
    requires NoDuplicates(s)
    ensures NoDuplicates(Remove(s, x)) && forall y :: y in Remove(s, x) <==> y in s && y != x
  {
    if s != [] {
      assert s == [s[0]] + s[1..];
      if s[0] == x {
        assert NoDuplicates(s[1..]);
      } else {
        RemoveExact(s[1..], x);
        PushFront(Remove(s[1..], x), s[0]);
      }
    }
  }

  // ----- malloc.c -----

  class Allocator {
    const pages: PageAllocator
    ghost const others: set<nat>
    var descs: seq<Desc>
    var arenas: Headers
    var memory: Memory
    ghost var live: set<nat>

    ghost predicate Valid()
      reads this, pages.kernelPool.usedMap.bits
    {
      && pages.Valid() && NoneIdle(descs, arenas)
      && Sound(descs, arenas, live, pages.kernelPool.usedMap.bits[..], pages.kernelPool.base, others)
    }

    /** The bytes block x offers: block_size(). */
    function Size(x: nat): nat
      reads this
    {
      BlockSize(x, arenas, descs)
    }

    /** Live blocks do not overlap, lie inside their arenas, and block_to_arena() finds those. */
    lemma LiveBlocks(x: nat, y: nat)
      requires Valid() && x in live && y in live
      ensures x != y ==> x + Size(x) <= y || y + Size(y) <= x
      ensures PageOf(x) in arenas && PageOf(x) + ARENA <= x && x + Size(x) <= PageOf(x) + PGSIZE * PagesIn(arenas[PageOf(x)])
    {
      hide Consistent, PagesOk, PagesCounted, OthersApart, BlockSize, PageOf, ClassSize;
      var bits := pages.kernelPool.usedMap.bits[..];
      var base := pages.kernelPool.base;
      LiveFacts(descs, arenas, live, x);
      LiveFacts(descs, arenas, live, y);
      BlockInArena(descs, arenas, live, bits, base, x);
      if x < y {
        BlocksDisjoint(descs, arenas, live, bits, base, x, y);
      } else if y < x {
        BlocksDisjoint(descs, arenas, live, bits, base, y, x);
      }
    }

    /** When nothing is live, every page the allocator took is free again. */
    lemma AllReturned(i: nat)
      requires Valid() && live == {} && i < pages.kernelPool.usedMap.bits.Length
      ensures arenas == map[] && (pages.kernelPool.usedMap.bits[i] <==> i in others)
    {
      hide Consistent, NoneIdle, PagesOk, ClassesOk;
      NothingRetained(descs, arenas);
      assert !Occupied(arenas, pages.kernelPool.base, i);
    }

    /** malloc_init(): one descriptor for each power of two from 16 up to half a page. */
    constructor (pages: PageAllocator)
      requires pages.Valid()
      ensures Valid() && live == {} && arenas == map[] && this.pages == pages
      ensures forall i :: i in others <==> 0 <= i < pages.kernelPool.usedMap.bits.Length && pages.kernelPool.usedMap.bits[i]
    {
      hide ClassSize;
      ClassSizes();
      var ds: seq<Desc> := [];
      var blockSize := 16;
      while blockSize < PGSIZE / 2
        invariant |ds| <= CLASSES && blockSize == ClassSize(|ds|)
        invariant forall k :: 0 <= k < |ds| ==> ds[k].blockSize == ClassSize(k) && DescOk(ds[k]) && ds[k].freeList == []
        decreases CLASSES - |ds|
      {
        ClassDoubles(|ds| + 1);
        ClassGrows(|ds|, 6);
        ClassGrows(7, |ds|);
        BlocksFit(blockSize);
        ds := ds + [Desc(blockSize, (PGSIZE - ARENA) / blockSize, [])];
        blockSize := blockSize * 2;
      }
      ClassGrows(|ds|, 6);
      this.pages := pages;
      others := set i | 0 <= i < pages.kernelPool.usedMap.bits.Length && pages.kernelPool.usedMap.bits[i];
      descs, arenas, memory, live := ds, map[], _ => 0, {};
    }

    /** block_to_arena(); its assertions are the precondition. */
    method BlockToArena(b: nat) returns (a: nat)
      requires ChecksPass(b, arenas, descs)
      ensures a == PageOf(b) && a in arenas
    {
      a := PageOf(b);
    }

    /** The part of malloc() that carves page a into blocks for descriptor k. */
    method Carve(k: nat, a: nat)
      requires k < |descs| && descs[k].freeList == []
      modifies this`descs
      ensures exists l :: |l| == old(descs)[k].blocksPerArena && descs == old(descs)[k := old(descs)[k].(freeList := l)]
                          && forall i :: 0 <= i < |l| ==> l[i] == BlockAt(a, old(descs)[k].blockSize, i)
    {
      hide BlockAt;
      ghost var d := descs[k];
      var i := 0;
      while i < descs[k].blocksPerArena
        invariant |descs| == |old(descs)| && descs == old(descs)[k := d.(freeList := descs[k].freeList)]
        invariant i <= d.blocksPerArena && |descs[k].freeList| == i
        invariant forall j :: 0 <= j < i ==> descs[k].freeList[j] == BlockAt(a, d.blockSize, j)
      {
        var b := BlockAt(a, descs[k].blockSize, i);
        descs := descs[k := descs[k].(freeList := descs[k].freeList + [b])];
        i := i + 1;
      }
      assert descs[k].freeList == descs[k].freeList;
    }

    /** malloc(): the smallest descriptor that satisfies the request. */
    method FindDesc(size: nat) returns (k: nat)
      requires ClassesOk(descs)
      ensures k == ClassFor(size, 0)
    {
      hide ClassSize;
      k := 0;
      while k < |descs| && descs[k].blockSize < size
        invariant k <= |descs| && ClassFor(size, 0) == ClassFor(size, k)
      {
        k := k + 1;
      }
    }

    /** malloc() */
    method Malloc(size: nat) returns (r: nat)
      requires Valid() && size < ADDRESS_LIMIT
      modifies this, pages.kernelPool.usedMap.bits
      ensures Valid()
      ensures r == 0 <==> size == 0 || old(NoRoom(size, descs, pages.kernelPool.usedMap.bits[..]))
      ensures live == if r == 0 then old(live) else old(live) + {r}
      ensures r != 0 ==> r !in old(live) && FitsRequest(Size(r), size)
      ensures r != 0 && size <= 1024 ==> Size(r) == 16 || Size(r) < 2 * size
      ensures SizesKept(old(live), old(descs), old(arenas), descs, arenas) && memory == old(memory)
    {
      hide Consistent, PagesFine, PageOf, ClassSize, BlockOk, NoneIdle, NoneIdleBut, SizesKept, FirstGroup, AllAre, SetRange, PagesFor, BlockSize, ClassFor;
      SizesKeptSame(live, descs, arenas);
      if size == 0 {
        return 0;
      }
      ClassForTight(size);
      var k := FindDesc(size);
      if k == |descs| {
        r := BigBlock(size);
        return;
      }
      if descs[k].freeList == [] {
        var ok := NewArena(k);
        if !ok {
          return 0;
        }
      } else {
        NoneIdleAnyway(descs, arenas, PageOf(descs[k].freeList[0]));
      }
      ghost var descs1, arenas1 := descs, arenas;
      r := PopBlock(k);
      SizesKeptTwice(old(live), old(descs), old(arenas), descs1, arenas1, descs, arenas);
    }

    /** malloc(), for a request that no descriptor satisfies. */
    method BigBlock(size: nat) returns (r: nat)
      requires Valid() && 0 < size < ADDRESS_LIMIT
      modifies this, pages.kernelPool.usedMap.bits
      ensures Valid()
      ensures r == 0 <==> PagesFor(size) == 0 || FirstGroup(old(pages.kernelPool.usedMap.bits[..]), 0, PagesFor(size), false) < 0
      ensures live == if r == 0 then old(live) else old(live) + {r}
      ensures r != 0 ==> r !in old(live) && FitsRequest(Size(r), size)
      ensures SizesKept(old(live), old(descs), old(arenas), descs, arenas) && memory == old(memory)
    {
      hide Consistent, PagesFine, PageOf, ClassSize, BlockOk, NoneIdle, NoneIdleBut, FirstGroup, AllAre, SetRange, PagesFor, BlockSize, ClassesOk;
      var pageCnt := PagesFor(size);
      ghost var bits := pages.kernelPool.usedMap.bits[..];
      var a := pages.GetMultiple(false, pageCnt);
      if a == 0 {
        return 0;
      }
      BigStep(descs, arenas, live, bits, pages.kernelPool.base, others, a, pageCnt);
      PagesForEnough(size);
      arenas := arenas[a := Big(pageCnt)];
      live := live + {a + ARENA};
      return a + ARENA;
    }

    /** malloc(), for an empty free list: one more arena, if a page is free. */
    method NewArena(k: nat) returns (ok: bool)
      requires Valid() && k < |descs| && descs[k].freeList == []
      modifies this`descs, this`arenas, pages.kernelPool.usedMap.bits
      ensures ok <==> FirstGroup(old(pages.kernelPool.usedMap.bits[..]), 0, 1, false) >= 0
      ensures !ok ==> Valid() && descs == old(descs) && arenas == old(arenas)
      ensures ok ==> |descs| == |old(descs)| && descs[k].freeList != [] && NoneIdleBut(descs, arenas, PageOf(descs[k].freeList[0]))
      ensures ok ==> Sound(descs, arenas, live, pages.kernelPool.usedMap.bits[..], pages.kernelPool.base, others)
      ensures SizesKept(live, old(descs), old(arenas), descs, arenas)
    {
      hide Consistent, PagesFine, PageOf, ClassSize, BlockOk, NoneIdle, NoneIdleBut, FirstGroup, AllAre, SetRange, BlockSize, BlockAt;
      ghost var bits := pages.kernelPool.usedMap.bits[..];
      var a := pages.GetMultiple(false, 1);
      if a == 0 {
        return false;
      }
      ghost var d := descs[k];
      arenas := arenas[a := Small(k, descs[k].blocksPerArena)];
      Carve(k, a);
      CarveStep(old(descs), old(arenas), live, bits, pages.kernelPool.base, others, k, a, descs[k].freeList);
      return true;
    }

    /** malloc(), once the free list has a block. */
    method PopBlock(k: nat) returns (b: nat)
      requires k < |descs| && descs[k].freeList != [] && NoneIdleBut(descs, arenas, PageOf(descs[k].freeList[0]))
      requires pages.Valid() && Sound(descs, arenas, live, pages.kernelPool.usedMap.bits[..], pages.kernelPool.base, others)
      modifies this`descs, this`arenas, this`live
      ensures Valid() && b != 0 && b !in old(live) && live == old(live) + {b} && Size(b) == ClassSize(k)
      ensures SizesKept(old(live), old(descs), old(arenas), descs, arenas)
    {
      hide Consistent, PagesFine, PageOf, ClassSize, BlockOk, NoneIdle, NoneIdleBut, BlockSize, ClassesOk, SizesKept;
      ghost var bits := pages.kernelPool.usedMap.bits[..];
      TakeStep(descs, arenas, live, bits, pages.kernelPool.base, others, k);
      b := descs[k].freeList[0];
      ChecksAlwaysPass(descs, arenas, live, bits, pages.kernelPool.base, others, b);
      descs := descs[k := descs[k].(freeList := descs[k].freeList[1..])];
      var a := BlockToArena(b);
      arenas := arenas[a := Small(k, arenas[a].freeCnt - 1)];
      live := live + {b};
    }

    /** free() */
    method Free(p: nat)
      requires Valid() && (p != 0 ==> p in live)
      modifies this, pages.kernelPool.usedMap.bits, pages.userPool.usedMap.bits
      ensures Valid() && live == if p == 0 then old(live) else old(live) - {p}
      ensures SizesKept(live, old(descs), old(arenas), descs, arenas)
      ensures BytesKept(live, old(descs), old(arenas), old(memory), memory)
      ensures pages.userPool.usedMap.bits[..] == old(pages.userPool.usedMap.bits[..])
    {
      hide Consistent, PagesFine, PageOf, ClassesOk, BlockOk, NoneIdle, SizesKept, BytesKept, BlockSize;
      if p == 0 {
        SizesKeptSame(live, descs, arenas);
        BytesKeptSame(live, descs, arenas, memory);
        return;
      }
      LiveFacts(descs, arenas, live, p);
      ChecksAlwaysPass(descs, arenas, live, pages.kernelPool.usedMap.bits[..], pages.kernelPool.base, others, p);
      var a := BlockToArena(p);
      match arenas[a]
      case Small(k, _) =>
        FreeSmall(p, a, k);
      case Big(n) =>
        FreeBig(p, a, n);
    }

    /** free(), for a big block. */
    method FreeBig(p: nat, a: nat, n: nat)
      requires Valid() && p in live && a == PageOf(p) && a in arenas && arenas[a] == Big(n)
      modifies this, pages.kernelPool.usedMap.bits, pages.userPool.usedMap.bits
      ensures Valid() && live == old(live) - {p}
      ensures SizesKept(live, old(descs), old(arenas), descs, arenas)
      ensures BytesKept(live, old(descs), old(arenas), old(memory), memory)
      ensures pages.userPool.usedMap.bits[..] == old(pages.userPool.usedMap.bits[..])
    {
      hide Consistent, PagesFine, PageOf, ClassesOk, BlockOk, NoneIdle, SizesKept, BytesKept, BlockSize, AllAre, SetRange, Fill;
      ghost var bits, base := pages.kernelPool.usedMap.bits[..], pages.kernelPool.base;
      DropBigStep(descs, arenas, live, bits, base, others, p);
      OtherPagesKept(descs, arenas, live, bits, base, others, live - {p}, a, memory, 0xcc);
      pages.FreeMultiple(a, n);
      memory := Fill(memory, a, PGSIZE * n, 0xcc);
      arenas := arenas - {a};
      live := live - {p};
    }

    /** free(), for a block of a small arena. */
    method FreeSmall(p: nat, a: nat, k: nat)
      requires Valid() && p in live && a == PageOf(p) && a in arenas && arenas[a].Small? && arenas[a].desc == k < |descs|
      modifies this, pages.kernelPool.usedMap.bits, pages.userPool.usedMap.bits
      ensures Valid() && live == old(live) - {p}
      ensures SizesKept(live, old(descs), old(arenas), descs, arenas)
      ensures BytesKept(live, old(descs), old(arenas), old(memory), memory)
      ensures pages.userPool.usedMap.bits[..] == old(pages.userPool.usedMap.bits[..])
    {
      hide Consistent, PagesFine, PageOf, ClassesOk, BlockOk, NoneIdle, NoneIdleBut, SizesKept, BytesKept, BlockSize;
      ghost var bits, base := pages.kernelPool.usedMap.bits[..], pages.kernelPool.base;
      SizeOfSmall(p, descs, arenas);
      memory := Fill(memory, p, descs[k].blockSize, 0xcc);
      OthersKept(descs, arenas, live, bits, base, others, p, old(memory), memory);
      PutStep(descs, arenas, live, bits, base, others, p);
      descs := descs[k := descs[k].(freeList := [p] + descs[k].freeList)];
      arenas := arenas[a := Small(k, arenas[a].freeCnt + 1)];
      live := live - {p};
      ghost var descs1, arenas1, memory1 := descs, arenas, memory;
      if arenas[a].freeCnt >= descs[k].blocksPerArena {
        assert arenas[a].freeCnt == descs[k].blocksPerArena;
        ReturnArena(k, a);
        SizesKeptTwice(live, old(descs), old(arenas), descs1, arenas1, descs, arenas);
        BytesKeptTwice(live, old(descs), old(arenas), descs1, arenas1, old(memory), memory1, memory);
      } else {
        NoneIdleAfter(descs, arenas, a);
      }
    }

    /** free(), when all blocks of the arena at a are free: take them off the list of descriptor
        k and give the page back. */
    method ReturnArena(k: nat, a: nat)
      requires pages.Valid() && Sound(descs, arenas, live, pages.kernelPool.usedMap.bits[..], pages.kernelPool.base, others)
      requires a in arenas && arenas[a].Small? && arenas[a].desc == k < |descs| && arenas[a].freeCnt == descs[k].blocksPerArena
      requires NoneIdleBut(descs, arenas, a)
      modifies this`descs, this`arenas, this`memory, pages.kernelPool.usedMap.bits, pages.userPool.usedMap.bits
      ensures Valid() && SizesKept(live, old(descs), old(arenas), descs, arenas)
      ensures BytesKept(live, old(descs), old(arenas), old(memory), memory)
      ensures pages.userPool.usedMap.bits[..] == old(pages.userPool.usedMap.bits[..])
    {
      hide Consistent, PagesFine, PageOf, ClassesOk, BlockOk, NoneIdle, NoneIdleBut, SizesKept, BytesKept, BlockSize, AllAre, SetRange, NoDuplicates, Fill;
      ghost var bits, base := pages.kernelPool.usedMap.bits[..], pages.kernelPool.base;
      FreeArenaFacts(descs, arenas, live, bits, base, others, a);
      Unlink(k, a);
      DropStep(old(descs), arenas, live, bits, base, others, a, descs[k].freeList);
      OtherPagesKept(old(descs), arenas, live, bits, base, others, live, a, memory, 0xcc);
      pages.FreeMultiple(a, 1);
      memory := Fill(memory, a, PGSIZE, 0xcc);
      arenas := arenas - {a};
    }

    /** The loop of free() that takes every block of the arena at a off its list. */
    method Unlink(k: nat, a: nat)
      requires k < |descs| && DescOk(descs[k]) && a % PGSIZE == 0 && NoDuplicates(descs[k].freeList)
      requires forall i :: 0 <= i < descs[k].blocksPerArena ==> BlockAt(a, descs[k].blockSize, i) in descs[k].freeList
      requires forall x :: x in descs[k].freeList && PageOf(x) == a ==> IsBlock(x, a, descs[k])
      modifies this`descs
      ensures |descs| == |old(descs)| && descs == old(descs)[k := old(descs)[k].(freeList := descs[k].freeList)]
      ensures NoDuplicates(descs[k].freeList)
      ensures forall x :: x in descs[k].freeList <==> x in old(descs)[k].freeList && PageOf(x) != a
    {
      hide NoDuplicates, BlockAt, PageOf, IsBlock, Remove;
      ghost var d := descs[k];
      ghost var gone: set<nat> := {};
      var i := 0;
      while i < descs[k].blocksPerArena
        invariant |descs| == |old(descs)| && descs == old(descs)[k := d.(freeList := descs[k].freeList)]
        invariant i <= d.blocksPerArena && NoDuplicates(descs[k].freeList)
        invariant forall x :: x in gone <==> exists j :: 0 <= j < i && x == BlockAt(a, d.blockSize, j)
        invariant forall x :: x in descs[k].freeList <==> x in d.freeList && x !in gone
      {
        var b := BlockAt(a, descs[k].blockSize, i);
        RemoveExact(descs[k].freeList, b);
        descs := descs[k := descs[k].(freeList := Remove(descs[k].freeList, b))];
        gone := gone + {b};
        i := i + 1;
      }
      forall x | x in d.freeList
        ensures x in gone <==> PageOf(x) == a
      {
        BlocksOfPage(x, a, d);
      }
    }

    /** calloc(). The product is checked against its factors only, so an overflow may pass. The
        clearing runs past the block, and nothing is promised, when the product taken modulo
        2^32 is over the limit. */
    method Calloc(a: nat, b: nat) returns (r: nat, overrun: bool)
      requires Valid() && a < ADDRESS_LIMIT && b < ADDRESS_LIMIT
      modifies this, pages.kernelPool.usedMap.bits
      ensures r == 0 <==> var size := a * b % ADDRESS_LIMIT;
                          !ProductPasses(a, b) || size == 0 || old(NoRoom(size, descs, pages.kernelPool.usedMap.bits[..]))
      ensures overrun <==> r != 0 && a * b % ADDRESS_LIMIT > SIZE_LIMIT
      ensures !overrun ==> Valid() && live == if r == 0 then old(live) else old(live) + {r}
      ensures !overrun && r != 0 ==> r !in old(live) && (Size(r) >= a * b <==> a * b < ADDRESS_LIMIT)
      ensures !overrun && r != 0 ==> forall p :: r <= p < r + a * b % ADDRESS_LIMIT ==> memory(p) == 0
      ensures !overrun ==> SizesKept(old(live), old(descs), old(arenas), descs, arenas)
                           && BytesKept(old(live), old(descs), old(arenas), old(memory), memory)
    {
      hide Sound, PageOf, NoneIdle, SizesKept, BytesKept, BlockSize, NoRoom;
      var size := a * b % ADDRESS_LIMIT;
      SizesKeptSame(live, descs, arenas);
      BytesKeptSame(live, descs, arenas, memory);
      if !ProductPasses(a, b) {
        return 0, false;
      }
      r := Malloc(size);
      overrun := r != 0 && size > SIZE_LIMIT;
      if r != 0 && !overrun {
        ghost var memory1 := memory;
        memory := Fill(memory, r, size, 0);
        OthersKept(descs, arenas, live, pages.kernelPool.usedMap.bits[..], pages.kernelPool.base, others, r, memory1, memory);
        assert live - {r} == old(live);
        BytesKeptAfter(old(live), old(descs), old(arenas), descs, arenas, old(memory), memory);
      }
    }

    /** realloc(). The copy runs past the new block, and nothing is promised, when the new size
        is over the limit and the old block is larger than the page that malloc() then returns. */
    method Realloc(p: nat, newSize: nat) returns (r: nat, overrun: bool)
      requires Valid() && newSize < ADDRESS_LIMIT && (p != 0 ==> p in live)
      modifies this, pages.kernelPool.usedMap.bits, pages.userPool.usedMap.bits
      ensures overrun <==> r != 0 && p != 0 && newSize > SIZE_LIMIT && old(Size(p)) > PGSIZE - ARENA
      ensures !overrun ==> Valid()
      ensures newSize == 0 ==> r == 0 && live == old(live) - {p}
      ensures newSize > 0 ==> (r == 0 <==> old(NoRoom(newSize, descs, pages.kernelPool.usedMap.bits[..])))
      ensures newSize > 0 && r == 0 ==> live == old(live)
      ensures !overrun && r != 0 ==> r !in old(live) && live == old(live) + {r} - {p} && FitsRequest(Size(r), newSize)
      ensures !overrun && r != 0 && p != 0 ==>
                var n := Min(newSize, old(Size(p)));
                ReadAt(memory, r, n) == ReadAt(old(memory), p, n)
      ensures !overrun ==> SizesKept(live * old(live), old(descs), old(arenas), descs, arenas)
                           && BytesKept(live * old(live), old(descs), old(arenas), old(memory), memory)
    {
      hide Sound, PageOf, NoneIdle, SizesKept, BytesKept, BlockSize, NoRoom, ReadAt;
      ZeroNotLive(descs, arenas, live, pages.kernelPool.usedMap.bits[..], pages.kernelPool.base, others);
      if newSize == 0 {
        Free(p);
        assert live * old(live) == live;
        return 0, false;
      }
      BytesKeptSame(live * live, descs, arenas, memory);
      r := Malloc(newSize);
      if p == 0 || r == 0 {
        assert live * old(live) == old(live);
        assert old(live) * old(live) == old(live);
        return r, false;
      }
      SizeKept(p, old(live), old(descs), old(arenas), descs, arenas);
      var oldSize := Size(p);
      var minSize := Min(newSize, oldSize);
      overrun := minSize > Size(r);
      if !overrun {
        ghost var descs1, arenas1 := descs, arenas;
        memory := Copy(memory, r, p, minSize);
        OthersKept(descs, arenas, live, pages.kernelPool.usedMap.bits[..], pages.kernelPool.base, others, r, old(memory), memory);
        assert live - {r} == old(live);
        ghost var memory1 := memory;
        Free(p);
        assert live * old(live) == old(live) - {p};
        SizeKept(r, live, descs1, arenas1, descs, arenas);
        SizesKeptBoth(live, old(live), old(descs), old(arenas), descs1, arenas1, descs, arenas);
        CopyKept(old(live), p, r, old(descs), old(arenas), descs1, arenas1, old(memory), memory1, memory, minSize);
      }
    }
  }

  lemma ZeroNotLive(descs: seq<Desc>, arenas: Headers, live: set<nat>, bits: seq<bool>, base: nat, others: set<nat>)
    requires Sound(descs, arenas, live, bits, base, others)
    ensures 0 !in live
  {
    hide PageOf, PagesFine, BlockOk, ClassSize;
    if 0 in live {
      LiveFacts(descs, arenas, live, 0);
      BlockAboveBase(descs, arenas, live, bits, base, others, 0);
    }
  }

  lemma SizesKeptBoth(ys: set<nat>, xs: set<nat>, descs: seq<Desc>, arenas: Headers, descs1: seq<Desc>, arenas1: Headers,
                      descs2: seq<Desc>, arenas2: Headers)
    requires SizesKept(xs, descs, arenas, descs1, arenas1) && SizesKept(ys, descs1, arenas1, descs2, arenas2)
    ensures SizesKept(ys * xs, descs, arenas, descs2, arenas2)
  {
    hide BlockSize;
  }

  lemma SizeKept(x: nat, xs: set<nat>, descs: seq<Desc>, arenas: Headers, descs1: seq<Desc>, arenas1: Headers)
    requires SizesKept(xs, descs, arenas, descs1, arenas1) && x in xs
    ensures BlockSize(x, arenas1, descs1) == BlockSize(x, arenas, descs)
  {
  }

  lemma BytesKeptAfter(xs: set<nat>, descs: seq<Desc>, arenas: Headers, descs1: seq<Desc>, arenas1: Headers, m: Memory, m1: Memory)
    requires SizesKept(xs, descs, arenas, descs1, arenas1) && BytesKept(xs, descs1, arenas1, m, m1)
    ensures BytesKept(xs, descs, arenas, m, m1)
  {
    hide BlockSize;
  }

  /** realloc() copies into r and then frees p: the copy arrives, and the other blocks keep
      their bytes. */
  lemma CopyKept(xs: set<nat>, p: nat, r: nat, descs: seq<Desc>, arenas: Headers, descs1: seq<Desc>, arenas1: Headers,
                 m: Memory, m1: Memory, m2: Memory, n: nat)
    requires SizesKept(xs, descs, arenas, descs1, arenas1) && BytesKept(xs, descs1, arenas1, m, m1)
    requires r !in xs && p in xs && BytesKept(xs + {r} - {p}, descs1, arenas1, m1, m2)
    requires n <= BlockSize(r, arenas1, descs1) && m1 == Copy(m, r, p, n)
    ensures BytesKept(xs - {p}, descs, arenas, m, m2)
    ensures ReadAt(m2, r, n) == ReadAt(m, p, n)
  {
    hide BlockSize;
    forall i | 0 <= i < n
      ensures ReadAt(m2, r, n)[i] == ReadAt(m, p, n)[i]
    {
      assert m1(r + i) == m(p + i);
      assert m2(r + i) == m1(r + i);
    }
  }

  /** The blocks of the arena at a are the ones in page a. */
  lemma BlocksOfPage(x: nat, a: nat, d: Desc)
    requires DescOk(d) && a % PGSIZE == 0 && (PageOf(x) == a ==> IsBlock(x, a, d))
    ensures PageOf(x) == a <==> exists j :: 0 <= j < d.blocksPerArena && x == BlockAt(a, d.blockSize, j)
  {
    hide PageOf, BlockAt;
    if j :| 0 <= j < d.blocksPerArena && x == BlockAt(a, d.blockSize, j) {
      BlockInside(a, d, j);
    }
  }

  /** What free() relies on when it takes a wholly free arena apart. */
  lemma FreeArenaFacts(descs: seq<Desc>, arenas: Headers, live: set<nat>, bits: seq<bool>, base: nat, others: set<nat>, a: nat)
    requires Sound(descs, arenas, live, bits, base, others)
    requires a in arenas && arenas[a].Small? && arenas[a].desc < |descs| && arenas[a].freeCnt == descs[arenas[a].desc].blocksPerArena
    ensures var d := descs[arenas[a].desc];
            && DescOk(d) && a % PGSIZE == 0 && NoDuplicates(d.freeList)
            && (forall i :: 0 <= i < d.blocksPerArena ==> BlockAt(a, d.blockSize, i) in d.freeList)
            && (forall x :: x in d.freeList && PageOf(x) == a ==> IsBlock(x, a, d))
    ensures forall x :: x in live ==> PageOf(x) != a
  {
    hide PageOf, PagesCounted, OthersApart, ClassSize, SmallOk, BlockAt;
    SmallFacts(descs, arenas, live, a);
    FreeCountAfter(a, descs[arenas[a].desc], arenas[a].freeCnt, live);
    forall x | x in live
      ensures PageOf(x) != a
    {
      LiveFacts(descs, arenas, live, x);
    }
  }

  lemma NoneIdleAfter(descs: seq<Desc>, arenas: Headers, a: nat)
    requires NoneIdleBut(descs, arenas, a)
    requires a in arenas && arenas[a].Small? && arenas[a].desc < |descs| && arenas[a].freeCnt < descs[arenas[a].desc].blocksPerArena
    ensures NoneIdle(descs, arenas)
  {
  }

  lemma SizeOfSmall(x: nat, descs: seq<Desc>, arenas: Headers)
    requires PageOf(x) in arenas && arenas[PageOf(x)].Small? && arenas[PageOf(x)].desc < |descs|
    ensures BlockSize(x, arenas, descs) == descs[arenas[PageOf(x)].desc].blockSize
  {
  }

  lemma BytesKeptSame(xs: set<nat>, descs: seq<Desc>, arenas: Headers, m: Memory)
    ensures BytesKept(xs, descs, arenas, m, m)
  {
  }

  /** At least two blocks of a class fit behind the header of an arena. */
  lemma BlocksFit(size: nat)
    requires 16 <= size <= 1024
    ensures 2 <= (PGSIZE - ARENA) / size && ARENA + (PGSIZE - ARENA) / size * size <= PGSIZE
  {
    DivBounds(PGSIZE - ARENA, size);
    QuotientAtLeast(PGSIZE - ARENA, size, 2);
  }
}
