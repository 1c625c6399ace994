/** The page allocator (threads/palloc.c): two pools of pages, each with a first-fit bitmap. */
module Palloc {
  import opened Bitmaps

  const PGSIZE: int := 4096
  const ADDRESS_LIMIT: int := 0x1_0000_0000
  const PHYS_BASE: int := 0xc000_0000

  /** pg_round_down() */
  function PageOf(address: nat): (p: nat)
    ensures p <= address < p + PGSIZE && p % PGSIZE == 0
  {
    address - address % PGSIZE
  }

  lemma PageOfInside(page: nat, address: nat)
    requires page % PGSIZE == 0 && page <= address < page + PGSIZE
    ensures PageOf(address) == page
  {
  }

  /** A pool: its bitmap has one bit per page from base on. */
  class Pool {
    const usedMap: Bitmap
    const base: nat

    constructor (base: nat, pages: nat)
      requires base % PGSIZE == 0 && 0 < base && base + PGSIZE * pages <= ADDRESS_LIMIT
      ensures Valid() && this.base == base && usedMap.bits.Length == pages && fresh(usedMap.bits)
      ensures AllAre(usedMap.bits[..], 0, pages, false)
    {
      this.base := base;
      this.usedMap := new Bitmap(pages);
    }

    ghost predicate Valid() {
      base % PGSIZE == 0 && 0 < base && base + PGSIZE * usedMap.bits.Length <= ADDRESS_LIMIT
    }

    /** page_from_pool() */
    predicate Contains(page: nat) {
      base / PGSIZE <= page / PGSIZE < base / PGSIZE + usedMap.bits.Length
    }

    /** The n pages at address page are in the pool and in use. */
    ghost predicate InUse(page: nat, n: nat)
      reads usedMap.bits
    {
      && page % PGSIZE == 0 && base <= page
      && AllAre(usedMap.bits[..], (page - base) / PGSIZE, n, true)
    }
  }

  lemma PageIndex(base: nat, idx: nat)
    requires base % PGSIZE == 0
    ensures (base + PGSIZE * idx) % PGSIZE == 0 && (base + PGSIZE * idx - base) / PGSIZE == idx
    ensures (base + PGSIZE * idx) / PGSIZE == base / PGSIZE + idx
  {
  }

  lemma PageDistance(base: nat, page: nat)
    requires base % PGSIZE == 0 && page % PGSIZE == 0 && base <= page
    ensures page / PGSIZE - base / PGSIZE == (page - base) / PGSIZE
    ensures page == base + PGSIZE * ((page - base) / PGSIZE)
  {
  }

  /** Pages that init_pool() sets aside for the bitmap of n pages. */
  function BitmapPages(n: nat): nat {
    (8 + (n + 31) / 32 * 4 + PGSIZE - 1) / PGSIZE
  }

  /** They have room for the bitmap's 8 bytes and a bit for each page, in words of 32, and would not
      if they were fewer. */
  lemma BitmapFits(n: nat)
    ensures 4096 * (BitmapPages(n) - 1) < 8 + (n + 31) / 32 * 4 <= 4096 * BitmapPages(n)
    ensures n <= 32 * ((n + 31) / 32) < n + 32
  {
  }

  /** The two pools of the kernel. */
  class PageAllocator {
    const kernelPool: Pool
    const userPool: Pool

    ghost predicate Valid() {
      kernelPool.Valid() && userPool.Valid()
      && kernelPool.usedMap.bits != userPool.usedMap.bits
      && kernelPool.base + PGSIZE * kernelPool.usedMap.bits.Length <= userPool.base
    }

    /** palloc_init(): free memory from 1 MB on is divided between the pools; init_pool() takes
        the bitmap's pages from the front of each and panics if they do not fit. */
    constructor (userPageLimit: nat, ramPages: nat)
      requires 256 <= ramPages && PHYS_BASE + PGSIZE * ramPages <= ADDRESS_LIMIT
      requires var free := ramPages - 256;
               var user := if free / 2 > userPageLimit then userPageLimit else free / 2;
               BitmapPages(user) <= user && BitmapPages(free - user) <= free - user
      ensures Valid()
      ensures AllAre(kernelPool.usedMap.bits[..], 0, kernelPool.usedMap.bits.Length, false)
      ensures AllAre(userPool.usedMap.bits[..], 0, userPool.usedMap.bits.Length, false)
      ensures var free := ramPages - 256;
              var user := if free / 2 > userPageLimit then userPageLimit else free / 2;
              && kernelPool.base == 0xc010_0000 + 4096 * BitmapPages(free - user) && kernelPool.usedMap.bits.Length == free - user - BitmapPages(free - user)
              && userPool.base == 0xc010_0000 + 4096 * (free - user + BitmapPages(user)) && userPool.usedMap.bits.Length == user - BitmapPages(user)
    {
      hide BitmapPages;
      var freeStart := PHYS_BASE + 1024 * 1024;
      var freePages := ramPages - 256;
      var userPages := freePages / 2;
      if userPages > userPageLimit {
        userPages := userPageLimit;
      }
      var kernelPages := freePages - userPages;
      var kernelBitmap, userBitmap := BitmapPages(kernelPages), BitmapPages(userPages);
      PageIndex(freeStart, kernelBitmap);
      PageIndex(freeStart, kernelPages + userBitmap);
      kernelPool := new Pool(freeStart + kernelBitmap * PGSIZE, kernelPages - kernelBitmap);
      userPool := new Pool(freeStart + kernelPages * PGSIZE + userBitmap * PGSIZE, userPages - userBitmap);
    }

    /** palloc_get_multiple(): the address of pageCnt contiguous pages, or 0 for null. */
    method GetMultiple(user: bool, pageCnt: nat) returns (pages: nat)
      requires Valid()
      modifies (if user then userPool else kernelPool).usedMap.bits
      ensures var pool := if user then userPool else kernelPool;
              var bits := old(pool.usedMap.bits[..]);
              var idx := if pageCnt == 0 then -1 else FirstGroup(bits, 0, pageCnt, false);
              && (idx < 0 ==> pages == 0 && pool.usedMap.bits[..] == bits)
              && (idx >= 0 ==> pages == pool.base + PGSIZE * idx && AllAre(bits, idx, pageCnt, false)
                               && idx + pageCnt <= |bits| && (pages - pool.base) / PGSIZE == idx
                               && pages % PGSIZE == 0 && pages + PGSIZE * pageCnt <= ADDRESS_LIMIT
                               && pool.usedMap.bits[..] == SetRange(bits, idx, pageCnt, true))
    {
      hide FirstGroup, SetRange, AllAre;
      if pageCnt == 0 {
        return 0;
      }
      var pool := if user then userPool else kernelPool;
      var pageIdx := pool.usedMap.ScanAndFlip(pageCnt, false);
      if pageIdx >= 0 {
        PageIndex(pool.base, pageIdx);
        pages := pool.base + PGSIZE * pageIdx;
      } else {
        pages := 0;
      }
    }

    /** palloc_free_multiple() for pages of the kernel pool; its assertion that they are in use
        is the precondition. */
    method FreeMultiple(pages: nat, pageCnt: nat)
      requires Valid() && (kernelPool.InUse(pages, pageCnt) || userPool.InUse(pages, pageCnt))
      modifies kernelPool.usedMap.bits, userPool.usedMap.bits
      ensures pageCnt > 0 && old(kernelPool.InUse(pages, pageCnt)) ==>
                && kernelPool.usedMap.bits[..] == SetRange(old(kernelPool.usedMap.bits[..]), (pages - kernelPool.base) / PGSIZE, pageCnt, false)
                && userPool.usedMap.bits[..] == old(userPool.usedMap.bits[..])
      ensures pageCnt > 0 && old(userPool.InUse(pages, pageCnt)) ==>
                && userPool.usedMap.bits[..] == SetRange(old(userPool.usedMap.bits[..]), (pages - userPool.base) / PGSIZE, pageCnt, false)
                && kernelPool.usedMap.bits[..] == old(kernelPool.usedMap.bits[..])
    {
      hide SetRange;
      if pages == 0 || pageCnt == 0 {
        return;
      }
      if pages >= kernelPool.base {
        PageDistance(kernelPool.base, pages);
      }
      if pages >= userPool.base {
        PageDistance(userPool.base, pages);
      }
      var pool := userPool;
      if kernelPool.Contains(pages) {
        pool := kernelPool;
      }
      var pageIdx := pages / PGSIZE - pool.base / PGSIZE;
      pool.usedMap.SetMultiple(pageIdx, pageCnt, false);
    }
  }
}
