/** What the block allocator's free lists and arena headers must agree on, and how each step of
    malloc() and free() keeps it (threads/malloc.c). */
module Arenas {
  import opened Common
  import opened NonLinear
  import opened Bitmaps
  import opened Palloc

  /** sizeof (struct arena) */
  const ARENA: int := 12

  /** A descriptor. */
  datatype Desc = Desc(blockSize: nat, blocksPerArena: nat, freeList: seq<nat>)

  /** An arena header: its descriptor and number of free blocks, or the pages of a big block,
      whose descriptor pointer is null. */
  datatype Arena = Small(desc: nat, freeCnt: nat) | Big(pages: nat)

  type Headers = map<nat, Arena>

  predicate DescOk(d: Desc) {
    0 < d.blockSize && 2 <= d.blocksPerArena && ARENA + d.blocksPerArena * d.blockSize <= PGSIZE
  }

  // ----- geometry of a small arena -----

  /** arena_to_block() */
  function BlockAt(a: nat, size: nat, i: nat): nat {
    a + ARENA + i * size
  }

  ghost predicate IsBlock(x: nat, a: nat, d: Desc) {
    exists i :: 0 <= i < d.blocksPerArena && x == BlockAt(a, d.blockSize, i)
  }

  /** Every block lies inside the page of its arena, where block_to_arena() finds it, and
      passes the alignment check there. */
  lemma BlockInside(a: nat, d: Desc, i: nat)
    requires DescOk(d) && a % PGSIZE == 0 && i < d.blocksPerArena
    ensures a + ARENA <= BlockAt(a, d.blockSize, i) && BlockAt(a, d.blockSize, i) + d.blockSize <= a + PGSIZE
    ensures PageOf(BlockAt(a, d.blockSize, i)) == a
    ensures (BlockAt(a, d.blockSize, i) % PGSIZE - ARENA) % d.blockSize == 0
  {
    var x, k := BlockAt(a, d.blockSize, i), i * d.blockSize;
    MulLe(i + 1, d.blocksPerArena, d.blockSize);
    MulDistrib(i, 1, d.blockSize);
    MulLe(0, i, d.blockSize);
    PageOfInside(a, x);
    assert x % PGSIZE - ARENA == k;
    QuotientUnique(k, d.blockSize, i);
  }

  /** Different indices give blocks that do not overlap. */
  lemma BlocksApart(a: nat, size: nat, i: nat, j: nat)
    requires i < j
    ensures BlockAt(a, size, i) + size <= BlockAt(a, size, j)
  {
    MulLe(i + 1, j, size);
    MulDistrib(i, 1, size);
  }

  lemma SameBlockSameIndex(a: nat, size: nat, i: nat, j: nat)
    requires 0 < size && BlockAt(a, size, i) == BlockAt(a, size, j)
    ensures i == j
  {
    if i < j {
      BlocksApart(a, size, i, j);
    } else if j < i {
      BlocksApart(a, size, j, i);
    }
  }

  // ----- the invariant -----

  function PagesIn(arena: Arena): nat {
    match arena
    case Small(_, _) => 1
    case Big(n) => n
  }

  /** The indices of an arena's blocks that are on the free list. */
  ghost function FreeIndices(a: nat, d: Desc): set<nat> {
    set i: nat | i < d.blocksPerArena && BlockAt(a, d.blockSize, i) in d.freeList
  }

  /** Every arena occupies pages of the pool that are in use, and shares none with another. */
  ghost predicate PagesOk(arenas: Headers, bits: seq<bool>, base: nat) {
    && (forall a :: a in arenas ==>
          a % PGSIZE == 0 && base <= a && 0 < PagesIn(arenas[a]) && AllAre(bits, (a - base) / PGSIZE, PagesIn(arenas[a]), true))
    && (forall a, b :: a in arenas && b in arenas && a < b ==> a + PGSIZE * PagesIn(arenas[a]) <= b)
  }

  /** The blocks of a small arena are free or live, never both; free_cnt counts the free ones. */
  ghost predicate SmallOk(a: nat, freeCnt: nat, d: Desc, live: set<nat>) {
    && (forall i :: 0 <= i < d.blocksPerArena ==> (BlockAt(a, d.blockSize, i) in d.freeList <==> BlockAt(a, d.blockSize, i) !in live))
    && freeCnt == |FreeIndices(a, d)|
  }

  ghost predicate ArenaOk(a: nat, arena: Arena, descs: seq<Desc>, live: set<nat>) {
    match arena
    case Small(k, freeCnt) => k < |descs| && SmallOk(a, freeCnt, descs[k], live)
    case Big(_) => a + ARENA in live
  }

  /** A free list holds blocks of arenas of its own descriptor, each once. */
  ghost predicate ListOk(k: nat, d: Desc, arenas: Headers) {
    && NoDuplicates(d.freeList)
    && forall x :: x in d.freeList ==>
         PageOf(x) in arenas && arenas[PageOf(x)].Small? && arenas[PageOf(x)].desc == k && IsBlock(x, PageOf(x), d)
  }

  /** x is a block of a small arena, or the one block of a big arena. */
  ghost predicate BlockOk(x: nat, arenas: Headers, descs: seq<Desc>) {
    && PageOf(x) in arenas
    && match arenas[PageOf(x)]
       case Small(k, _) => k < |descs| && IsBlock(x, PageOf(x), descs[k])
       case Big(_) => x == PageOf(x) + ARENA
  }

  ghost predicate Consistent(descs: seq<Desc>, arenas: Headers, live: set<nat>) {
    && (forall k :: 0 <= k < |descs| ==> DescOk(descs[k]) && ListOk(k, descs[k], arenas))
    && (forall a :: a in arenas ==> ArenaOk(a, arenas[a], descs, live))
    && (forall x :: x in live ==> BlockOk(x, arenas, descs))
  }

  /** What holds between calls in addition: no small arena is wholly free. */
  ghost predicate NoneIdle(descs: seq<Desc>, arenas: Headers) {
    forall a :: a in arenas && arenas[a].Small? && arenas[a].desc < |descs| ==> arenas[a].freeCnt < descs[arenas[a].desc].blocksPerArena
  }

  // ----- the main facts about live blocks -----

  /** The bytes a block offers: block_size(). */
  function BlockSize(x: nat, arenas: Headers, descs: seq<Desc>): nat {
    if PageOf(x) !in arenas then 0
    else match arenas[PageOf(x)]
         case Small(k, _) => if k < |descs| then descs[k].blockSize else 0
         case Big(n) => if PGSIZE * n >= x % PGSIZE then PGSIZE * n - x % PGSIZE else 0
  }

  /** Live and free blocks are blocks of arenas. */
  lemma FreeIsBlock(descs: seq<Desc>, arenas: Headers, live: set<nat>, k: nat, x: nat)
    requires Consistent(descs, arenas, live) && k < |descs| && x in descs[k].freeList
    ensures BlockOk(x, arenas, descs) && x !in live
  {
    assert ListOk(k, descs[k], arenas);
    var a := PageOf(x);
    assert ArenaOk(a, arenas[a], descs, live);
    var i :| 0 <= i < descs[k].blocksPerArena && x == BlockAt(a, descs[k].blockSize, i);
  }

  /** A block lies inside its arena, behind the header. */
  lemma BlockInArena(descs: seq<Desc>, arenas: Headers, live: set<nat>, bits: seq<bool>, base: nat, x: nat)
    requires Consistent(descs, arenas, live) && PagesOk(arenas, bits, base) && BlockOk(x, arenas, descs)
    ensures PageOf(x) + ARENA <= x
    ensures x + BlockSize(x, arenas, descs) <= PageOf(x) + PGSIZE * PagesIn(arenas[PageOf(x)])
  {
    var a := PageOf(x);
    match arenas[a]
    case Small(k, _) =>
      var i :| 0 <= i < descs[k].blocksPerArena && x == BlockAt(a, descs[k].blockSize, i);
      BlockInside(a, descs[k], i);
    case Big(n) =>
  }

  lemma BlocksOfOneArena(a: nat, d: Desc, x: nat, y: nat)
    requires IsBlock(x, a, d) && IsBlock(y, a, d) && x < y
    ensures x + d.blockSize <= y
  {
    var i :| 0 <= i < d.blocksPerArena && x == BlockAt(a, d.blockSize, i);
    var j :| 0 <= j < d.blocksPerArena && y == BlockAt(a, d.blockSize, j);
    if i < j {
      BlocksApart(a, d.blockSize, i, j);
    } else if j < i {
      BlocksApart(a, d.blockSize, j, i);
    }
  }

  lemma ArenasApart(arenas: Headers, bits: seq<bool>, base: nat, a: nat, b: nat)
    requires PagesOk(arenas, bits, base) && a in arenas && b in arenas
    ensures a < b ==> a + PGSIZE * PagesIn(arenas[a]) <= b
  {
  }

  /** Blocks, live or free, are pairwise disjoint. */
  lemma BlocksDisjoint(descs: seq<Desc>, arenas: Headers, live: set<nat>, bits: seq<bool>, base: nat, x: nat, y: nat)
    requires Consistent(descs, arenas, live) && PagesOk(arenas, bits, base)
    requires BlockOk(x, arenas, descs) && BlockOk(y, arenas, descs) && x < y
    ensures x + BlockSize(x, arenas, descs) <= y
  {
    hide Consistent, PagesOk, IsBlock;
    BlockInArena(descs, arenas, live, bits, base, x);
    BlockInArena(descs, arenas, live, bits, base, y);
    var a := PageOf(x);
    if PageOf(y) == a {
      match arenas[a]
      case Small(k, _) =>
        BlocksOfOneArena(a, descs[k], x, y);
      case Big(n) =>
    } else {
      ArenasApart(arenas, bits, base, a, PageOf(y));
    }
  }

  // ----- one step at a time -----

  /** Same blocks, another free list. */
  ghost predicate SameShape(d: Desc, e: Desc) {
    e.blockSize == d.blockSize && e.blocksPerArena == d.blocksPerArena
  }

  /** The two free lists, and the two sets of live blocks, agree outside page a. */
  ghost predicate SameElsewhere(a: nat, d: Desc, e: Desc, live: set<nat>, live1: set<nat>) {
    && SameShape(d, e)
    && (forall x :: x in d.freeList && PageOf(x) != a ==> x in e.freeList)
    && (forall x :: x in e.freeList && PageOf(x) != a ==> x in d.freeList)
    && (forall x :: x in live && PageOf(x) != a ==> x in live1)
    && (forall x :: x in live1 && PageOf(x) != a ==> x in live)
  }

  /** An arena in another page is as consistent as before. */
  lemma OtherSmallArena(b: nat, freeCnt: nat, d: Desc, e: Desc, live: set<nat>, live1: set<nat>, a: nat)
    requires DescOk(d) && b % PGSIZE == 0 && b != a && SameElsewhere(a, d, e, live, live1)
    requires SmallOk(b, freeCnt, d, live)
    ensures SmallOk(b, freeCnt, e, live1)
  {
    forall i | 0 <= i < d.blocksPerArena
      ensures BlockAt(b, d.blockSize, i) in e.freeList <==> BlockAt(b, d.blockSize, i) in d.freeList
      ensures BlockAt(b, d.blockSize, i) in live1 <==> BlockAt(b, d.blockSize, i) in live
    {
      BlockInside(b, d, i);
    }
    assert FreeIndices(b, e) == FreeIndices(b, d);
  }

  lemma OtherArena(b: nat, arena: Arena, descs: seq<Desc>, k: nat, e: Desc, live: set<nat>, live1: set<nat>, a: nat)
    requires k < |descs| && b % PGSIZE == 0 && b != a && SameElsewhere(a, descs[k], e, live, live1)
    requires forall j :: 0 <= j < |descs| ==> DescOk(descs[j])
    requires ArenaOk(b, arena, descs, live)
    ensures ArenaOk(b, arena, descs[k := e], live1)
  {
    hide SmallOk;
    match arena
    case Big(_) =>
      PageOfInside(b, b + ARENA);
    case Small(j, freeCnt) =>
      OtherSmallArena(b, freeCnt, descs[j], descs[k := e][j], live, live1, a);
  }

  ghost predicate Aligned(arenas: Headers) {
    forall a :: a in arenas ==> a % PGSIZE == 0
  }

  ghost predicate SameButFor(a: nat, arenas: Headers, arenas1: Headers) {
    forall b :: b != a ==> (b in arenas1 <==> b in arenas) && (b in arenas ==> arenas1[b] == arenas[b])
  }

  /** If page a is a small arena, it is one of descriptor k. */
  ghost predicate OwnedBy(a: nat, k: nat, arenas: Headers) {
    a in arenas && arenas[a].Small? ==> arenas[a].desc == k
  }

  /** A change confined to page a and descriptor k keeps the allocator consistent if the page
      itself is. */
  lemma PageChanged(descs: seq<Desc>, arenas: Headers, live: set<nat>, k: nat, e: Desc, arenas1: Headers, live1: set<nat>, a: nat)
    requires Consistent(descs, arenas, live) && Aligned(arenas) && k < |descs| && OwnedBy(a, k, arenas)
    requires SameElsewhere(a, descs[k], e, live, live1) && SameButFor(a, arenas, arenas1)
    requires ListOk(k, e, arenas1)
    requires a in arenas1 ==> ArenaOk(a, arenas1[a], descs[k := e], live1)
    requires forall x :: x in live1 && PageOf(x) == a ==> BlockOk(x, arenas1, descs[k := e])
    ensures Consistent(descs[k := e], arenas1, live1)
  {
    hide SmallOk, NoDuplicates, PageOf;
    var descs1 := descs[k := e];
    forall j | 0 <= j < |descs1|
      ensures DescOk(descs1[j]) && ListOk(j, descs1[j], arenas1)
    {
      assert DescOk(descs[j]) && ListOk(j, descs[j], arenas);
    }
    forall b | b in arenas1
      ensures ArenaOk(b, arenas1[b], descs1, live1)
    {
      if b != a {
        OtherArena(b, arenas[b], descs, k, e, live, live1, a);
      }
    }
    forall x | x in live1
      ensures BlockOk(x, arenas1, descs1)
    {
      if PageOf(x) != a {
        assert BlockOk(x, arenas, descs);
        SameBlocks(x, descs, k, e, PageOf(x));
      }
    }
  }

  lemma SameBlocks(x: nat, descs: seq<Desc>, k: nat, e: Desc, a: nat)
    requires k < |descs| && SameShape(descs[k], e)
    ensures forall j :: 0 <= j < |descs| && IsBlock(x, a, descs[j]) ==> IsBlock(x, a, descs[k := e][j])
  {
    forall j | 0 <= j < |descs| && IsBlock(x, a, descs[j])
      ensures IsBlock(x, a, descs[k := e][j])
    {
      var i :| 0 <= i < descs[j].blocksPerArena && x == BlockAt(a, descs[j].blockSize, i);
      assert x == BlockAt(a, descs[k := e][j].blockSize, i);
    }
  }

  /** The counts of one arena after block i has left or joined the free list. */
  lemma IndexMoved(a: nat, d: Desc, e: Desc, i: nat, freeCnt: nat, live: set<nat>, joined: bool)
    requires DescOk(d) && SameShape(d, e) && i < d.blocksPerArena && SmallOk(a, freeCnt, d, live)
    requires var b := BlockAt(a, d.blockSize, i);
             && (b in d.freeList <==> !joined) && (b in e.freeList <==> joined)
             && (forall x :: x != b ==> (x in e.freeList <==> x in d.freeList))
    ensures joined ==> SmallOk(a, freeCnt + 1, e, live - {BlockAt(a, d.blockSize, i)})
    ensures !joined ==> freeCnt >= 1 && SmallOk(a, freeCnt - 1, e, live + {BlockAt(a, d.blockSize, i)})
    ensures freeCnt <= d.blocksPerArena
  {
    forall j | 0 <= j < d.blocksPerArena && j != i
      ensures BlockAt(a, d.blockSize, j) != BlockAt(a, d.blockSize, i)
    {
      if BlockAt(a, d.blockSize, j) == BlockAt(a, d.blockSize, i) {
        SameBlockSameIndex(a, d.blockSize, i, j);
      }
    }
    FreeIndicesBound(a, d);
    if joined {
      assert FreeIndices(a, e) == FreeIndices(a, d) + {i};
    } else {
      assert i in FreeIndices(a, d);
      assert FreeIndices(a, e) == FreeIndices(a, d) - {i};
    }
  }

  function Below(n: nat): (s: set<nat>)
    ensures |s| == n && forall i :: i in s <==> 0 <= i < n
  {
    if n == 0 then {} else Below(n - 1) + {n - 1}
  }

  lemma {:induction false} SubsetSize(s: set<nat>, t: set<nat>)
    requires s <= t
    ensures |s| <= |t| && (|s| == |t| ==> s == t)
    decreases t
  {
    if t != {} {
      var x :| x in t;
      SubsetSize(s - {x}, t - {x});
      assert x in s ==> s == s - {x} + {x};
      assert t == t - {x} + {x};
    }
  }

  lemma FreeIndicesBound(a: nat, d: Desc)
    ensures |FreeIndices(a, d)| <= d.blocksPerArena
    ensures |FreeIndices(a, d)| == d.blocksPerArena ==> forall i :: 0 <= i < d.blocksPerArena ==> BlockAt(a, d.blockSize, i) in d.freeList
  {
    SubsetSize(FreeIndices(a, d), Below(d.blocksPerArena));
    assert forall i: nat :: i in FreeIndices(a, d) ==> BlockAt(a, d.blockSize, i) in d.freeList;
  }

  // ----- the steps of malloc() and free() -----

  lemma OneArenaChanged(arenas: Headers, a: nat, arena: Arena)
    ensures SameButFor(a, arenas, arenas[a := arena])
  {
  }

  /** A shorter or longer list whose elements still are blocks of arenas of descriptor k. */
  lemma ListChanged(k: nat, d: Desc, e: Desc, arenas: Headers, arenas1: Headers, a: nat)
    requires ListOk(k, d, arenas) && SameShape(d, e) && SameButFor(a, arenas, arenas1) && NoDuplicates(e.freeList)
    requires forall x :: x in e.freeList && PageOf(x) != a ==> x in d.freeList
    requires forall x :: x in e.freeList && PageOf(x) == a ==> a in arenas1 && arenas1[a].Small? && arenas1[a].desc == k && IsBlock(x, a, e)
    ensures ListOk(k, e, arenas1)
  {
    forall x | x in e.freeList
      ensures PageOf(x) in arenas1 && arenas1[PageOf(x)].Small? && arenas1[PageOf(x)].desc == k && IsBlock(x, PageOf(x), e)
    {
      if PageOf(x) != a {
        SameBlocks(x, [d], 0, e, PageOf(x));
        assert [d][0] == d && [d][0 := e][0] == e;
      }
    }
  }

  /** malloc() takes the first block of a free list. */
  lemma TakeBlock(descs: seq<Desc>, arenas: Headers, live: set<nat>, k: nat)
    requires Consistent(descs, arenas, live) && Aligned(arenas) && k < |descs| && descs[k].freeList != []
    ensures var b := descs[k].freeList[0];
            var a := PageOf(b);
            && a in arenas && arenas[a].Small? && arenas[a].desc == k && 0 < arenas[a].freeCnt <= descs[k].blocksPerArena && b !in live
            && Consistent(descs[k := descs[k].(freeList := descs[k].freeList[1..])],
                          arenas[a := Small(k, arenas[a].freeCnt - 1)], live + {b})
  {
    hide SmallOk, PageOf;
    var d := descs[k];
    var b, e := d.freeList[0], d.(freeList := d.freeList[1..]);
    var a := PageOf(b);
    assert ListOk(k, d, arenas);
    assert ArenaOk(a, arenas[a], descs, live);
    assert d.freeList == [b] + e.freeList;
    var n := arenas[a].freeCnt;
    var i :| 0 <= i < d.blocksPerArena && b == BlockAt(a, d.blockSize, i);
    IndexMoved(a, d, e, i, n, live, false);
    FreeIsBlock(descs, arenas, live, k, b);
    var arenas1 := arenas[a := Small(k, n - 1)];
    SameBlocksOfPage(descs, k, e, arenas, arenas1, a, live);
    assert IsBlock(b, a, e);
    ListChanged(k, d, e, arenas, arenas1, a);
    PageChanged(descs, arenas, live, k, e, arenas1, live + {b}, a);
  }

  /** The live blocks of page a and the free ones keep their shape. */
  lemma SameBlocksOfPage(descs: seq<Desc>, k: nat, e: Desc, arenas: Headers, arenas1: Headers, a: nat, live: set<nat>)
    requires Consistent(descs, arenas, live) && k < |descs| && SameShape(descs[k], e)
    requires a in arenas && arenas[a].Small? && arenas[a].desc == k && a in arenas1 && arenas1[a].Small? && arenas1[a].desc == k
    ensures forall x :: x in live && PageOf(x) == a ==> BlockOk(x, arenas1, descs[k := e])
    ensures forall x :: x in descs[k].freeList && PageOf(x) == a ==> IsBlock(x, a, e)
  {
    hide SmallOk, PageOf;
    forall x | x in live && PageOf(x) == a
      ensures BlockOk(x, arenas1, descs[k := e])
    {
      assert BlockOk(x, arenas, descs);
      SameBlocks(x, descs, k, e, a);
    }
    forall x | x in descs[k].freeList && PageOf(x) == a
      ensures IsBlock(x, a, e)
    {
      assert ListOk(k, descs[k], arenas);
      SameBlocks(x, descs, k, e, a);
    }
  }

  lemma SmallFacts(descs: seq<Desc>, arenas: Headers, live: set<nat>, a: nat)
    requires Consistent(descs, arenas, live) && a in arenas && arenas[a].Small?
    ensures var k := arenas[a].desc;
            k < |descs| && DescOk(descs[k]) && ListOk(k, descs[k], arenas) && SmallOk(a, arenas[a].freeCnt, descs[k], live)
  {
    assert ArenaOk(a, arenas[a], descs, live);
  }

  lemma LiveFacts(descs: seq<Desc>, arenas: Headers, live: set<nat>, x: nat)
    requires Consistent(descs, arenas, live) && x in live
    ensures BlockOk(x, arenas, descs)
  {
  }

  lemma PushFront(s: seq<nat>, b: nat)
    requires NoDuplicates(s) && b !in s
    ensures NoDuplicates([b] + s) && forall x :: x in [b] + s <==> x == b || x in s
  {
  }

  /** free() puts a block of a small arena back. */
  lemma PutBlock(descs: seq<Desc>, arenas: Headers, live: set<nat>, b: nat)
    requires Consistent(descs, arenas, live) && Aligned(arenas) && b in live
    requires PageOf(b) in arenas && arenas[PageOf(b)].Small?
    ensures var a := PageOf(b);
            var k := arenas[a].desc;
            && k < |descs| && b !in descs[k].freeList && arenas[a].freeCnt < descs[k].blocksPerArena
            && Consistent(descs[k := descs[k].(freeList := [b] + descs[k].freeList)],
                          arenas[a := Small(k, arenas[a].freeCnt + 1)], live - {b})
  {
    hide Consistent, SmallOk, PageOf, NoDuplicates, SameButFor;
    var a := PageOf(b);
    var k, n := arenas[a].desc, arenas[a].freeCnt;
    SmallFacts(descs, arenas, live, a);
    LiveFacts(descs, arenas, live, b);
    var d := descs[k];
    var e := d.(freeList := [b] + d.freeList);
    var i :| 0 <= i < d.blocksPerArena && b == BlockAt(a, d.blockSize, i);
    LiveNotFree(a, n, d, live, i);
    PushFront(d.freeList, b);
    IndexMoved(a, d, e, i, n, live, true);
    FreeCountAfter(a, e, n + 1, live - {b});
    var arenas1 := arenas[a := Small(k, n + 1)];
    SameBlocksOfPage(descs, k, e, arenas, arenas1, a, live);
    assert IsBlock(b, a, e);
    assert SameButFor(a, arenas, arenas1) by { OneArenaChanged(arenas, a, Small(k, n + 1)); }
    ListChanged(k, d, e, arenas, arenas1, a);
    PageChanged(descs, arenas, live, k, e, arenas1, live - {b}, a);
  }

  lemma LiveNotFree(a: nat, n: nat, d: Desc, live: set<nat>, i: nat)
    requires SmallOk(a, n, d, live) && i < d.blocksPerArena && BlockAt(a, d.blockSize, i) in live
    ensures BlockAt(a, d.blockSize, i) !in d.freeList
  {
  }

  lemma FreeCountAfter(a: nat, e: Desc, n: nat, live: set<nat>)
    requires SmallOk(a, n, e, live)
    ensures n <= e.blocksPerArena
    ensures n == e.blocksPerArena ==> forall i :: 0 <= i < e.blocksPerArena ==>
              BlockAt(a, e.blockSize, i) in e.freeList && BlockAt(a, e.blockSize, i) !in live
  {
    FreeIndicesBound(a, e);
  }

  /** free() gives an arena back when all its blocks are free: the list keeps the others. */
  lemma DropArena(descs: seq<Desc>, arenas: Headers, live: set<nat>, a: nat, l: seq<nat>)
    requires Consistent(descs, arenas, live) && Aligned(arenas) && a in arenas && arenas[a].Small? && arenas[a].desc < |descs|
    requires arenas[a].freeCnt == descs[arenas[a].desc].blocksPerArena
    requires NoDuplicates(l) && forall x :: x in l <==> x in descs[arenas[a].desc].freeList && PageOf(x) != a
    ensures Consistent(descs[arenas[a].desc := descs[arenas[a].desc].(freeList := l)], arenas - {a}, live)
  {
    hide SmallOk, PageOf;
    var k := arenas[a].desc;
    var d, e := descs[k], descs[k].(freeList := l);
    assert ArenaOk(a, arenas[a], descs, live);
    assert ListOk(k, d, arenas);
    FreeCountAfter(a, d, arenas[a].freeCnt, live);
    forall x | x in live
      ensures PageOf(x) != a
    {
      assert BlockOk(x, arenas, descs);
    }
    ListChanged(k, d, e, arenas, arenas - {a}, a);
    PageChanged(descs, arenas, live, k, e, arenas - {a}, live, a);
  }

  /** malloc() carves a fresh page into the blocks of an empty free list. */
  lemma AddArena(descs: seq<Desc>, arenas: Headers, live: set<nat>, k: nat, a: nat, l: seq<nat>)
    requires Consistent(descs, arenas, live) && Aligned(arenas) && k < |descs| && descs[k].freeList == []
    requires a !in arenas && a % PGSIZE == 0 && |l| == descs[k].blocksPerArena
    requires forall i :: 0 <= i < |l| ==> l[i] == BlockAt(a, descs[k].blockSize, i)
    ensures Consistent(descs[k := descs[k].(freeList := l)], arenas[a := Small(k, descs[k].blocksPerArena)], live)
  {
    var d, e := descs[k], descs[k].(freeList := l);
    var arenas1 := arenas[a := Small(k, d.blocksPerArena)];
    assert ListOk(k, d, arenas);
    forall i | 0 <= i < |l|
      ensures PageOf(l[i]) == a && IsBlock(l[i], a, e)
    {
      BlockInside(a, d, i);
    }
    CarvedArena(a, d, l, live, arenas, descs);
    ListChanged(k, d, e, arenas, arenas1, a);
    assert forall x :: x in live ==> BlockOk(x, arenas, descs);
    PageChanged(descs, arenas, live, k, e, arenas1, live, a);
  }

  lemma CarvedArena(a: nat, d: Desc, l: seq<nat>, live: set<nat>, arenas: Headers, descs: seq<Desc>)
    requires DescOk(d) && a % PGSIZE == 0 && a !in arenas && |l| == d.blocksPerArena
    requires forall i :: 0 <= i < |l| ==> l[i] == BlockAt(a, d.blockSize, i)
    requires forall x :: x in live ==> BlockOk(x, arenas, descs)
    ensures NoDuplicates(l) && SmallOk(a, d.blocksPerArena, d.(freeList := l), live)
  {
    forall i, j | 0 <= i < j < |l|
      ensures l[i] != l[j]
    {
      BlocksApart(a, d.blockSize, i, j);
    }
    var e := d.(freeList := l);
    forall i | 0 <= i < d.blocksPerArena
      ensures BlockAt(a, d.blockSize, i) in l && BlockAt(a, d.blockSize, i) !in live
    {
      assert l[i] == BlockAt(a, d.blockSize, i);
      BlockInside(a, d, i);
    }
    assert FreeIndices(a, e) == Below(d.blocksPerArena);
  }

  lemma AddBig(descs: seq<Desc>, arenas: Headers, live: set<nat>, a: nat, n: nat)
    requires Consistent(descs, arenas, live) && Aligned(arenas) && 0 < |descs| && a !in arenas && a % PGSIZE == 0
    ensures Consistent(descs, arenas[a := Big(n)], live + {a + ARENA})
  {
    PageOfInside(a, a + ARENA);
    assert descs[0 := descs[0]] == descs;
    assert ListOk(0, descs[0], arenas);
    forall x | x in live
      ensures PageOf(x) != a
    {
      assert BlockOk(x, arenas, descs);
    }
    PageChanged(descs, arenas, live, 0, descs[0], arenas[a := Big(n)], live + {a + ARENA}, a);
  }

  lemma DropBig(descs: seq<Desc>, arenas: Headers, live: set<nat>, a: nat)
    requires Consistent(descs, arenas, live) && Aligned(arenas) && 0 < |descs| && a in arenas && arenas[a].Big?
    ensures Consistent(descs, arenas - {a}, live - {a + ARENA})
  {
    hide SmallOk, NoDuplicates, IsBlock;
    PageOfInside(a, a + ARENA);
    assert descs[0 := descs[0]] == descs;
    assert ListOk(0, descs[0], arenas);
    forall x | x in live && PageOf(x) == a
      ensures x == a + ARENA
    {
      assert BlockOk(x, arenas, descs);
    }
    PageChanged(descs, arenas, live, 0, descs[0], arenas - {a}, live - {a + ARENA}, a);
  }

  // ----- the pages under the arenas -----

  /** Page number i of the pool lies under the n pages at a. */
  predicate Covers(a: nat, n: nat, base: nat, i: nat) {
    base <= a && (a - base) / PGSIZE <= i < (a - base) / PGSIZE + n
  }

  /** Page number i of the pool lies under an arena. */
  ghost predicate Occupied(arenas: Headers, base: nat, i: nat) {
    exists a :: a in arenas && Covers(a, PagesIn(arenas[a]), base, i)
  }

  /** The pages in use are those under an arena and those of other users of the pool. */
  ghost predicate PagesCounted(arenas: Headers, bits: seq<bool>, base: nat, others: set<nat>) {
    forall i :: 0 <= i < |bits| ==> (bits[i] <==> i in others || Occupied(arenas, base, i))
  }

  /** No page of another user lies under an arena. */
  ghost predicate OthersApart(arenas: Headers, base: nat, others: set<nat>) {
    forall i :: i in others ==> !Occupied(arenas, base, i)
  }

  ghost predicate PagesFine(arenas: Headers, bits: seq<bool>, base: nat, others: set<nat>) {
    PagesOk(arenas, bits, base) && PagesCounted(arenas, bits, base, others) && OthersApart(arenas, base, others)
  }

  /** Which pages are occupied after an arena has been added. */
  lemma OccupiedAfter(arenas: Headers, base: nat, a: nat, arena: Arena, p: nat)
    requires a !in arenas
    ensures Occupied(arenas[a := arena], base, p) <==> Covers(a, PagesIn(arena), base, p) || Occupied(arenas, base, p)
  {
    hide Covers, PagesIn;
    var arenas1 := arenas[a := arena];
    assert a in arenas1;
    if Occupied(arenas, base, p) {
      var b :| b in arenas && Covers(b, PagesIn(arenas[b]), base, p);
      assert b in arenas1;
    }
  }

  /** Rewriting a header leaves the pages as they are. */
  lemma PagesSame(arenas: Headers, bits: seq<bool>, base: nat, others: set<nat>, a: nat, arena: Arena)
    requires PagesFine(arenas, bits, base, others) && a in arenas && PagesIn(arena) == PagesIn(arenas[a])
    ensures PagesFine(arenas[a := arena], bits, base, others)
  {
    hide Occupied, AllAre;
    var rest := arenas - {a};
    assert rest[a := arenas[a]] == arenas && rest[a := arena] == arenas[a := arena];
    forall p: nat
      ensures Occupied(arenas[a := arena], base, p) <==> Occupied(arenas, base, p)
    {
      OccupiedAfter(rest, base, a, arenas[a], p);
      OccupiedAfter(rest, base, a, arena, p);
    }
  }

  /** An arena in use and a free group of pages do not meet. */
  lemma FreshPagesApart(arenas: Headers, bits: seq<bool>, base: nat, a: nat, n: nat, b: nat)
    requires PagesOk(arenas, bits, base) && base % PGSIZE == 0 && base <= a && a % PGSIZE == 0 && 0 < n
    requires AllAre(bits, (a - base) / PGSIZE, n, false) && b in arenas
    ensures b != a
    ensures b < a ==> b + PGSIZE * PagesIn(arenas[b]) <= a && (b - base) / PGSIZE + PagesIn(arenas[b]) <= (a - base) / PGSIZE
    ensures a < b ==> a + PGSIZE * n <= b && (a - base) / PGSIZE + n <= (b - base) / PGSIZE
  {
    var i, j, m := (a - base) / PGSIZE, (b - base) / PGSIZE, PagesIn(arenas[b]);
    PageDistance(base, a);
    PageDistance(base, b);
    assert AllAre(bits, j, m, true);
    assert bits[j] && !bits[i];
    assert !(j <= i < j + m) && !(i <= j < i + n);
  }

  lemma MarkedElsewhere(bits: seq<bool>, i: nat, n: nat, value: bool, j: nat, m: nat)
    requires i + n <= |bits| && AllAre(bits, j, m, true) && (i + n <= j || j + m <= i)
    ensures AllAre(SetRange(bits, i, n, value), j, m, true)
  {
  }

  /** Taking free pages for a new arena. */
  lemma PagesTaken(arenas: Headers, bits: seq<bool>, base: nat, others: set<nat>, a: nat, arena: Arena)
    requires PagesFine(arenas, bits, base, others) && base % PGSIZE == 0 && base <= a && a % PGSIZE == 0 && 0 < PagesIn(arena)
    requires AllAre(bits, (a - base) / PGSIZE, PagesIn(arena), false)
    ensures a !in arenas
    ensures PagesFine(arenas[a := arena], SetRange(bits, (a - base) / PGSIZE, PagesIn(arena), true), base, others)
  {
    hide Occupied;
    var i, n := (a - base) / PGSIZE, PagesIn(arena);
    var arenas1, bits1 := arenas[a := arena], SetRange(bits, i, n, true);
    assert PagesOk(arenas1, bits1, base) && a !in arenas by {
      hide AllAre;
      forall b | b in arenas
        ensures b != a
        ensures b < a ==> b + PGSIZE * PagesIn(arenas[b]) <= a
        ensures a < b ==> a + PGSIZE * n <= b
        ensures AllAre(bits1, (b - base) / PGSIZE, PagesIn(arenas[b]), true)
      {
        FreshPagesApart(arenas, bits, base, a, n, b);
        MarkedElsewhere(bits, i, n, true, (b - base) / PGSIZE, PagesIn(arenas[b]));
      }
      MarkedNow(bits, i, n);
    }
    forall p: nat
      ensures Occupied(arenas1, base, p) <==> i <= p < i + n || Occupied(arenas, base, p)
    {
      OccupiedAfter(arenas, base, a, arena, p);
    }
  }

  lemma MarkedNow(bits: seq<bool>, i: nat, n: nat)
    requires i + n <= |bits|
    ensures AllAre(SetRange(bits, i, n, true), i, n, true)
  {
  }

  /** Giving the pages of an arena back. */
  lemma PagesReturned(arenas: Headers, bits: seq<bool>, base: nat, others: set<nat>, a: nat)
    requires PagesFine(arenas, bits, base, others) && base % PGSIZE == 0 && a in arenas
    ensures a % PGSIZE == 0 && base <= a && AllAre(bits, (a - base) / PGSIZE, PagesIn(arenas[a]), true)
    ensures PagesFine(arenas - {a}, SetRange(bits, (a - base) / PGSIZE, PagesIn(arenas[a]), false), base, others)
  {
    hide Occupied;
    var i, n := (a - base) / PGSIZE, PagesIn(arenas[a]);
    var arenas1, bits1 := arenas - {a}, SetRange(bits, i, n, false);
    assert PagesOk(arenas1, bits1, base) by {
      hide AllAre;
      forall b | b in arenas1
        ensures AllAre(bits1, (b - base) / PGSIZE, PagesIn(arenas1[b]), true)
      {
        PagesApart(arenas, bits, base, a, b);
        MarkedElsewhere(bits, i, n, false, (b - base) / PGSIZE, PagesIn(arenas[b]));
      }
    }
    forall p: nat
      ensures Occupied(arenas, base, p) <==> i <= p < i + n || Occupied(arenas1, base, p)
      ensures i <= p < i + n ==> !Occupied(arenas1, base, p)
    {
      assert arenas1[a := arenas[a]] == arenas;
      OccupiedAfter(arenas1, base, a, arenas[a], p);
      if Occupied(arenas1, base, p) {
        var b := Occupier(arenas1, base, p);
        PagesApart(arenas, bits, base, a, b);
      }
    }
  }

  lemma Occupier(arenas: Headers, base: nat, p: nat) returns (b: nat)
    requires Occupied(arenas, base, p)
    ensures b in arenas && Covers(b, PagesIn(arenas[b]), base, p)
  {
    b :| b in arenas && Covers(b, PagesIn(arenas[b]), base, p);
  }

  lemma PagesApart(arenas: Headers, bits: seq<bool>, base: nat, a: nat, b: nat)
    requires PagesOk(arenas, bits, base) && base % PGSIZE == 0 && a in arenas && b in arenas && a != b
    ensures (a - base) / PGSIZE + PagesIn(arenas[a]) <= (b - base) / PGSIZE
         || (b - base) / PGSIZE + PagesIn(arenas[b]) <= (a - base) / PGSIZE
  {
    PageDistance(base, a);
    PageDistance(base, b);
    assert a < b || b < a;
  }

  /** With nothing live, every page has gone back: none is left under an arena. */
  lemma NothingRetained(descs: seq<Desc>, arenas: Headers)
    requires Consistent(descs, arenas, {}) && NoneIdle(descs, arenas)
    ensures arenas == map[]
  {
    hide SmallOk;
    forall a
      ensures a !in arenas
    {
      if a in arenas {
        assert ArenaOk(a, arenas[a], descs, {});
        if arenas[a].Small? {
          WhollyFree(a, arenas[a].freeCnt, descs[arenas[a].desc]);
        }
      }
    }
  }

  lemma WhollyFree(a: nat, freeCnt: nat, d: Desc)
    requires SmallOk(a, freeCnt, d, {})
    ensures freeCnt == d.blocksPerArena
  {
    assert FreeIndices(a, d) == Below(d.blocksPerArena);
  }
}
