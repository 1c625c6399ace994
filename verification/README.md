# Pintos kernel and reference monitor: a verified model

This project models the kernel under `cs439/proj1` (a Pintos) and the two-level reference monitor
under `cs361/SecureSystem`, and proves their central properties for all inputs, all states and
all sequences of operations. `dafny verify dfyconfig.toml` checks it.

Code that changes state is modelled by classes and methods on arrays, sequences and maps, with the
source's branches and loops; each method is proved against a specification on values, and the
properties are proved of that specification. C integers are mathematical integers with the
wrap-around, truncation or overflow written out where the code can meet it.

| component | files | what is proved of it |
|---|---|---|
| 64-bit division | `Arithmetic`, `NonLinear` | `udiv64` is floor division and no 32-bit divide instruction traps; the signed and remainder functions are right exactly where their return types allow |
| sorting and searching | `Sorting` | heapsort and binary search on a byte array, by way of a heap invariant on sequences of elements |
| file system | `Bytes`, `Bitmap`, `Inode`, `Ownership`, `Directory`, `FileSystem` | byte ranges over sectors are slices and splices of flat files; a directory is a finite map; `FileSystem.Valid` holds from formatting on, through every call: one owner per sector, owned means marked, one in-memory inode per sector |
| memory | `Palloc`, `Arenas`, `Malloc` | live and free blocks are disjoint and inside their arenas, `free_cnt` counts, no arena is idle, contents are kept |
| threads, semaphores, sleep | `Scheduling` (steps and invariants), `SchedulingSteps` (each step keeps them), `SchedulingRuns`, `Preemption` and `SemaphoreRuns` (whole runs), `Threads` (the code refines the steps) | list membership, semaphore counts, no lost wakeup, mutual exclusion, bounded waiting for the processor in switches and in ticks, and for a semaphore in ups, exact sleep |
| condition variables | `Condition` | the order of wakeups in a broadcast, each waiter once, no lost signal; when that order is that of the current priorities |
| priority donation, locks | `Donation`, `Scenarios` and `Circles` (runs to failing states) | the walk ends exactly without a circle of `wait_thread` pointers, raises exactly the chain, and order and acyclicity are kept by acquire, release and set_priority |
| page tables | `Mmu` (the processor), `PageDir`, `PagingInit` (boot) | a two-level table is a partial map; what the processor lets kernel and user do at every address after each call; destroy frees each page once exactly when the map is injective |
| tar headers | `Ustar` | which headers are accepted, and what they mean; parse inverts make; a changed byte is noticed |
| formatting | `Stdio`, `StdioLayout` | every character of the output by its position; digits evaluate to the value and fit the buffer; `atoi` inverts `%d`; bounded output |
| reference monitor | `Monitor` | exactly what is granted and done; noninterference of HIGH subjects with all others, for instructions of any kind and for runs that end in a crash |
| shared | `Common` | |

In the step system of `Scheduling`, every interrupts-off region and every single store is one step, a timer interrupt is
possible between any two steps, and a run is any sequence of enabled steps. The threads run code of
their own between the steps; what the steps need is that locks are used through `lock_acquire`,
`lock_try_acquire` and `lock_release`, and a thread's own semaphore by `timer_sleep` only.

## Where the code falls short of its promise

These are results of the model. The code is modelled as it stands; each point has its exact
condition and an input or a run that fails.

- `umod64` and `smod64` return 32 bits: right if and only if the remainder fits (`Arithmetic.Umod64`,
  `Arithmetic.Smod64`; inputs: `Arithmetic.RemaindersTruncate`). `sdiv64` wraps for INT64_MIN / -1 alone
  (`Arithmetic.Sdiv64`, `Arithmetic.QuotientWraps`).
- `malloc` of more than 2^32 - 12 bytes wraps its page count and returns one page: a block holds the
  request if and only if the size is at most 2^32 - 12 (`Malloc.PagesForEnough`, `Malloc.Allocator.Malloc`;
  input: `Malloc.UndersizedBlock`). The check in `calloc` against the two factors misses some products that
  wrap; its block holds a * b bytes if and only if the product does not wrap (`Malloc.Allocator.Calloc`;
  inputs: `Malloc.ProductsMissed`). The result `overrun` of `Malloc.Allocator.Calloc` and
  `Malloc.Allocator.Realloc` is the exact condition under which their memset or memcpy leaves the block.
- A failed `filesys_create` gives back the sector of the header but not those of the extent: the free map
  is unchanged if and only if no extent was allocated (`FileSystems.FailureLeaks`; input:
  `FileSystems.ExistingNameLeaks`).
- `lock_release` uses `top_thread` without a value when there are waiters but none is above PRI_MIN
  (`Donation.LockRelease` is defined if and only if not; a run from boot: `Scenarios.TopThreadUnassigned`).
- `lock_acquire` never ends its walk when `wait_thread` pointers lead in a circle (`Donation.WalkEndsIff`).
  That is so in a deadlock (a run from boot: `Circles.DeadlockRun`), but a pointer can also be stale: stored,
  and its thread not yet among the waiters when the lock is released. Then there is a circle without a
  deadlock (a run from boot: `Circles.StaleRun`).
- The scheduler picks the first ready thread when none is above PRI_MIN, so "nobody outranks the
  running thread" holds if and only if some ready thread is above PRI_MIN or the first one is a
  greatest (`SchedulingRuns.AfterSwitch`); `thread_set_priority` does not check its argument (a run from
  boot: `Scenarios.LowPriorityMissed`).
- `cond_signal` compares the priorities that waiters had when they began to wait, not those they
  have now. With priorities as they were it picks a greatest one if and only if some waiter is above
  PRI_MIN or the first is a greatest (`Conditions.SignalUnchanged`); a broadcast goes by current priority if
  and only if stored and current priorities order each two waiters alike (`Conditions.BroadcastByPriority`;
  input: `Conditions.SignalMissesDonation`). For one signal only waiters whose priority has changed matter, as
  long as the picked one is above PRI_MIN and has not been lowered (`Conditions.SignalPicksGreatest`).
- `pagedir_destroy` frees a page twice if and only if a frame is mapped twice, or is the directory or one
  of its page tables (`PageDir.DestroyFreesOnce`; input: `PageDir.MappedTwice`).
- `printf` pads twice for the flag 0 with a negative `*` width, no flag - and no precision, if the field is
  wider than the content, and never else leaves the field width (`Stdio.FieldWidth`, `Stdio.PrintedWidth`;
  input: `Stdio.PaddedTwice`).
- A precision is the least number of digits if and only if the value has that many anyway, or it is at most
  63 and there are no commas, which are counted as digits (`Stdio.PrecisionKept`; inputs: `Stdio.PrecisionCut`,
  `Stdio.CommaCounted`).
- `vsnprintf` keeps its limit in an int: it stores the first buf_size - 1 characters if and only if
  buf_size is at most 2^31 or there is no output (`Stdio.StoredExactly`; input: `Stdio.NothingStored`).
- `atoi` overflows an int if and only if the number in the text is not an int (`Stdio.Atoi`; input:
  `Stdio.AtoiOverflows`).
- A header made for a regular file of negative size is refused by the parser (`Ustar.RoundTrip`;
  input: `Ustar.NegativeSizeRefused`).
- The check in `SecureSystem` lets through instructions with one unknown name, and the monitor fails on a
  null pointer for some of them (`Monitor.CheckedCrashes`). A HIGH subject can so keep LOW instructions from
  being done; that it does not is exactly `Monitor.CrashHarmless` (`Monitor.HaltsAlike`,
  `Monitor.HaltingNoninterference`; input: `Monitor.CrashInterferes`).
- For an instruction that is granted, but names a subject or object that is not in the lists, the driver
  copies what the monitor had before. It so may show a HIGH element as that of a LOW subject. What it copies
  is right exactly as `Monitor.CopiedSubject` says, and without such instructions nothing HIGH is shown
  (`Monitor.ViewNoninterference`; input: `Monitor.StaleInterferes`).

## Model

| member | source | states |
|---|---|---|
| `Arithmetic.Nlz` | cs439/proj1/lib/arithmetic.c:41-73 | the number n of leading zero bits, with 2^(31-n) <= x < 2^(32-n) for every x other than 0 |
| `Arithmetic.LeadingZerosBounds` | cs439/proj1/lib/arithmetic.c:41-73 | the two bounds on x in terms of its leading zeros, on which the quotient estimate rests |
| `Arithmetic.SmallDivisor` | cs439/proj1/lib/arithmetic.c:107-111 | for d < 2^32 the second division cannot trap (its quotient fits in 32 bits) and the two partial quotients add up to floor(n/d) |
| `Arithmetic.NormalisedDivisor` | cs439/proj1/lib/arithmetic.c:121-123 | for d >= 2^32 shifting by nlz loses no bit and leaves a 32-bit divisor with its top bit set |
| `Arithmetic.EstimateWithinOne` | cs439/proj1/lib/arithmetic.c:82-105 | a truncated divisor makes the estimate at most one too large and never too small, the half that the comment in the source leaves out |
| `Arithmetic.ShiftedEstimate` | cs439/proj1/lib/arithmetic.c:117-123 | for d >= 2^32 the division in the estimate cannot trap, and the estimate q is floor(n/d) or floor(n/d)+1 |
| `Arithmetic.FinalTest` | cs439/proj1/lib/arithmetic.c:124 | the last comparison, in wrapping 64-bit arithmetic, is true exactly when the estimate is one too large |
| `Arithmetic.Udiv64` | cs439/proj1/lib/arithmetic.c:77-127 | floor(n/d) for every 64-bit n and every d other than 0; each use of divl meets its precondition |
| `Arithmetic.Umod64` | cs439/proj1/lib/arithmetic.c:131-135 | the true remainder if and only if that fits in the 32-bit return type |
| `Arithmetic.TruncatedQuotientUnique` | cs439/proj1/lib/arithmetic.c:139-146 | remainder smaller than the divisor, and never of the sign opposite to the dividend, determine the quotient |
| `Arithmetic.Sdiv64` | cs439/proj1/lib/arithmetic.c:139-146 | truncation toward zero if and only if the operands are not INT64_MIN and -1, where the result wraps to INT64_MIN |
| `Arithmetic.Smod64` | cs439/proj1/lib/arithmetic.c:148-154 | the remainder of truncating division if and only if that fits in the 32-bit return type |
| `Arithmetic.QuotientWraps` | cs439/proj1/lib/arithmetic.c:139-146 | the failing input: for INT64_MIN and -1 the true quotient is 2^63, and the result is not it |
| `Arithmetic.RemaindersTruncate` | cs439/proj1/lib/arithmetic.c:131-154 | two concrete inputs on which the 32-bit return types lose the high half of the remainder |
| `Sorting.SiftDownRestoresHeap` | cs439/proj1/lib/stdlib.c:96-123 | heapify on a range that is a heap except at i makes it a heap again, whatever the comparison of i with its parent |
| `Sorting.SiftDownPermutes` | cs439/proj1/lib/stdlib.c:96-123 | heapify permutes the elements and leaves those above cnt alone |
| `Sorting.RootIsMaximum` | cs439/proj1/lib/stdlib.c:131-152 | the first element of a heap is a greatest one |
| `Sorting.ExtractMaximum` | cs439/proj1/lib/stdlib.c:146-151 | one round of the second loop: heap below i, sorted and not smaller from i on, for i one less |
| `Sorting.SwapBytesSwapsElements` | cs439/proj1/lib/stdlib.c:67-79 | exchanging the bytes of two slots is exchanging two elements, for every element size |
| `Sorting.DoSwap` | cs439/proj1/lib/stdlib.c:67-79 | the byte loop exchanges the two elements and leaves all other bytes of the array as they were |
| `Sorting.DoCompare` | cs439/proj1/lib/stdlib.c:86-91 | compares the elements with the given 1-based indices |
| `Sorting.Heapify` | cs439/proj1/lib/stdlib.c:97-123 | the descent ends and computes the heap repair of the specification on the elements in the byte array |
| `Sorting.Sort` | cs439/proj1/lib/stdlib.c:132-152 | for every count and element size: ordered by the comparison, a permutation of the input, bytes behind the array unchanged |
| `Sorting.BinarySearch` | cs439/proj1/lib/stdlib.c:185-207 | the address of a matching element exactly when there is one, on any array sorted by the same comparison |
| `Bitmaps.FirstGroupIsLowest` | cs439/proj1/filesys/free-map.c:27-32 | first fit: the scan finds the lowest group of free sectors, and fails only if there is none |
| `Bitmaps.SetRangeUndo` | cs439/proj1/filesys/free-map.c:33-50 | releasing a group just allocated gives back the bitmap as it was |
| `Bitmaps.Bitmap.ScanAndFlip` | cs439/proj1/filesys/free-map.c:27-32 | first group of cnt equal bits, flipped; nothing changes if there is none |
| `Bitmaps.Bitmap.Scan` | cs439/proj1/filesys/free-map.c:27-32 | the first group of cnt equal bits, or -1 |
| `Bitmaps.Bitmap.SetMultiple` | cs439/proj1/filesys/free-map.c:45-50 | sets exactly the given range |
| `Bitmaps.Bitmap.Contains` | cs439/proj1/filesys/free-map.c:45-50 | whether a range has a bit of the given value, the assertion of free_map_release |
| `Inodes.DecodeEncodeInode` | cs439/proj1/filesys/inode.c:13-22 | an inode header written to its sector is read back unchanged |
| `Inodes.InodeLayout` | cs439/proj1/filesys/inode.c:13-22 | start, length and magic are little-endian words at bytes 0, 4 and 8, and zeros follow |
| `Inodes.SectorsFor` | cs439/proj1/filesys/inode.c:24-29 | enough sectors for the length, and exactly the rounded quotient unless the 32-bit sum overflows, where it is a count no device has |
| `Inodes.ExtentPut` | cs439/proj1/filesys/inode.c:258-318 | replacing part of one sector is a splice of the file as a flat byte sequence |
| `Inodes.ExtentGet` | cs439/proj1/filesys/inode.c:201-250 | a slice inside one sector is the slice of the flat byte sequence at that position |
| `Inodes.ByteToSector` | cs439/proj1/filesys/inode.c:46-54 | the sector that holds a position below the length, and -1 from the length on |
| `Inodes.TransferredExact` | cs439/proj1/filesys/inode.c:201-318 | the byte count that reads and writes promise is the greatest that request and file allow; without memory for the bounce buffer the greatest number of whole sectors, from a sector boundary alone |
| `Inodes.TransferEnds` | cs439/proj1/filesys/inode.c:211-246 | whichever way a transfer loop ends, the bytes moved are the count that the specification promises |
| `Inodes.TransferContinues` | cs439/proj1/filesys/inode.c:211-246 | no round of a transfer loop oversteps that count |
| `Inodes.ReadAt` | cs439/proj1/filesys/inode.c:201-250 | slice of the flat content: the count is min(size, max(0, length - offset)) when memory suffices, and just the bytes at that position reach the buffer |
| `Inodes.BounceWrite` | cs439/proj1/filesys/inode.c:291-307 | read, modify, write of part of a sector keeps the rest of the sector |
| `Inodes.WriteAt` | cs439/proj1/filesys/inode.c:258-318 | splice of the flat extent: same count, 0 when writes are denied; the tail of the last sector and every sector outside the extent unchanged |
| `Inodes.ContentAfterWrite` | cs439/proj1/filesys/inode.c:258-318 | the splice seen on the bytes of the file alone |
| `Ownership.FreeGroupUnowned` | cs439/proj1/filesys/free-map.c:27-41 | sectors free in the map belong to no file, so an allocation never takes an owned sector |
| `Ownership.DropFile` | cs439/proj1/filesys/free-map.c:45-50 | the sectors of a file are marked when it is released, so the assertion of free_map_release holds, and the invariant survives the release |
| `Ownership.ReleasedBits` | cs439/proj1/filesys/free-map.c:45-50 | a release clears the sectors that the file owned and no others |
| `Ownership.MarksKept` | cs439/proj1/filesys/free-map.c:27-50 | allocating, or releasing sectors nobody owns, keeps every owned sector marked |
| `Ownership.AddFile` | cs439/proj1/filesys/inode.c:72-106 | giving a file fresh header and extent sectors keeps the invariant: no sector with two owners, every owned one marked, headers on the device |
| `Ownership.WriteUnowned` | cs439/proj1/filesys/inode.c:72-106 | writes to unowned sectors disturb no header and no file |
| `Ownership.WriteInside` | cs439/proj1/filesys/inode.c:258-318 | writes inside the extent of one file disturb no header and no other file |
| `Directories.DecodeEntryFields` | cs439/proj1/filesys/directory.c:18-24 | the layout of a directory entry: a stored entry is read back with its sector, name and flag |
| `Directories.EntriesAfterPut` | cs439/proj1/filesys/directory.c:142-179 | writing one 20-byte entry, though it may straddle two sectors, changes that entry and no other |
| `Directories.NamesAfterAdd` | cs439/proj1/filesys/directory.c:142-179 | filling a free slot with an unused name adds exactly that pair to the map of names |
| `Directories.NamesAfterErase` | cs439/proj1/filesys/directory.c:185-216 | clearing in_use removes exactly that name from the map |
| `Directories.UnusedMeansAbsent` | cs439/proj1/filesys/directory.c:92-112 | no entry in use has a name if and only if the map does not hold it |
| `Directories.ReadEntry` | cs439/proj1/filesys/directory.c:92-112 | a read of a whole entry is short exactly from the last entry on |
| `Directories.Lookup` | cs439/proj1/filesys/directory.c:92-112 | finds the first entry in use with the name, its bytes and offset, exactly when there is one |
| `Directories.FirstFreeExact` | cs439/proj1/filesys/directory.c:162-169 | the search for a free slot finds the first one exactly when some entry is not in use |
| `Directories.FreeSlots` | cs439/proj1/filesys/directory.c:162-169 | some slot is free exactly while there are fewer names than slots |
| `Directories.DirAdd` | cs439/proj1/filesys/directory.c:142-179 | succeeds exactly for a legal name that no entry in use has, when some entry is not in use and the write is possible; then the first entry not in use, and no other, is filled; otherwise nothing changes |
| `Directories.Dir.Readdir` | cs439/proj1/filesys/directory.c:222-236 | the next entry in use and the position behind it, or end of directory |
| `Directories.ListingNames` | cs439/proj1/filesys/directory.c:222-236 | repeated calls deliver a name if and only if some entry in use has it |
| `Directories.ListingIsExact` | cs439/proj1/filesys/directory.c:222-236 | a whole pass delivers every name of the map, each exactly once, and nothing else |
| `Directories.ReadAll` | cs439/proj1/filesys/directory.c:222-236 | a loop over dir_readdir from position 0 is that pass |
| `FileSystems.FileSystem.FreeMapAllocate` | cs439/proj1/filesys/free-map.c:28-41 | first-fit allocation; undone when the write of the map fails |
| `FileSystems.FileSystem.FreeMapRelease` | cs439/proj1/filesys/free-map.c:45-50 | clears exactly the group; its assertion is a precondition that every caller is proved to meet |
| `FileSystems.FileSystem.InodeCreate` | cs439/proj1/filesys/inode.c:73-106 | all or nothing: header and zeroed extent in freshly marked sectors, every other sector unchanged |
| `FileSystems.FileCreated` | cs439/proj1/filesys/inode.c:73-106 | a created inode reads as zeros, and no existing file has changed |
| `FileSystems.FileSystem.InodeOpen` | cs439/proj1/filesys/inode.c:112-142 | the inode already open on that sector, or a new one; the count of openers goes up by one; no two open inodes share a sector |
| `FileSystems.FileSystem.InodeClose` | cs439/proj1/filesys/inode.c:164-186 | one opener fewer; the last close of a removed file releases its header and extent sectors, any other close releases nothing |
| `FileSystems.FileSystem.DropHandle` | cs439/proj1/filesys/inode.c:164-175 | the last opener takes the inode off the list and leaves the others there |
| `FileSystems.FileSystem.ReleaseSectors` | cs439/proj1/filesys/inode.c:177-182 | the two releases for a removed file keep the device invariant |
| `FileSystems.AcquiredDropped` | cs439/proj1/filesys/inode.c:112-186 | opening and then closing, also around another opening, restores the counts |
| `FileSystems.NameAdded` | cs439/proj1/filesys/directory.c:142-179 | adding a name keeps one name per file and one file per name |
| `FileSystems.NameErased` | cs439/proj1/filesys/directory.c:185-216 | erasing a name makes its file a removed one that is still live |
| `FileSystems.FileSystem.OpenRoot` | cs439/proj1/filesys/directory.c:34-58 | opens the root directory, or undoes the opening when there is no memory for it |
| `FileSystems.FileSystem.CloseRoot` | cs439/proj1/filesys/directory.c:70-77 | undoes OpenRoot and never releases the root directory |
| `FileSystems.FileSystem.DirLookup` | cs439/proj1/filesys/directory.c:119-133 | opens the file of that name exactly when the name is in the map and memory suffices |
| `FileSystems.FileSystem.EraseEntry` | cs439/proj1/filesys/directory.c:204-211 | removes the name and marks the inode removed, both or neither |
| `FileSystems.FileSystem.DirRemove` | cs439/proj1/filesys/directory.c:185-216 | removes exactly that name; the bytes go when nobody has the file open and stay otherwise; a failure changes nothing |
| `FileSystems.FileSystem.StoreFile` | cs439/proj1/filesys/filesys.c:45-59 | inode_create and dir_add together: the exact condition for success, the new name and a file of zeros, or no change to names and contents; the extent stays marked in the free map either way |
| `FileSystems.FileSystem.CreateEntry` | cs439/proj1/filesys/filesys.c:45-59 | the same with the allocation of the header sector in front and its release on failure; the whole new free map |
| `FileSystems.FileSystem.FilesysCreate` | cs439/proj1/filesys/filesys.c:45-59 | succeeds exactly if memory suffices, nobody denies writes to the root directory, the name is legal and new, there are fewer than 16 names, and besides the first free sector there is room for the extent; adds one name for a new zeroed file or changes neither names nor contents; the whole new free map, after a failure too; counts of openers unchanged; invariant kept |
| `FileSystems.FileSystem.CanCreateExact` | cs439/proj1/filesys/filesys.c:45-59 | that condition is the one under which the header sector, the extent and the directory slot are all found |
| `FileSystems.RoomExact` | cs439/proj1/filesys/filesys.c:45-59 | both allocations find their sectors exactly if, without the first free sector, as many free ones as the extent needs are left in a row |
| `FileSystems.FailureLeaks` | cs439/proj1/filesys/filesys.c:45-59 | a failed create leaves the free map unchanged if and only if it did not get as far as allocating an extent of at least one sector; otherwise just that extent stays marked |
| `FileSystems.ExistingNameLeaks` | cs439/proj1/filesys/filesys.c:45-59 | the failing input: one byte under a name that exists |
| `FileSystems.FileSystem.FilesysOpen` | cs439/proj1/filesys/filesys.c:66-77 | opens exactly an existing name, one more opener and nothing else changed |
| `FileSystems.FileSystem.FilesysRemove` | cs439/proj1/filesys/filesys.c:84-91 | removes exactly that name; an open file keeps its bytes; invariant kept |
| `FileSystems.FileSystem.DoFormat` | cs439/proj1/filesys/filesys.c:95-103 | leaves an empty root directory of 16 entries and a device on which the two system files own disjoint, marked sectors |
| `FileSystems.FileSystem.Format` | cs439/proj1/filesys/filesys.c:18-31 | after formatting any device of at least four sectors the invariant of every later call holds |
| `FileSystems.FileSystem.FileReadAt` | cs439/proj1/filesys/file.c:82-85 | reads the bytes of that file, by its flat content |
| `FileSystems.FileSystem.FileWriteAt` | cs439/proj1/filesys/file.c:110-114 | splices the content of that file; every other file, the names and the invariant are unchanged |
| `FileSystems.FileSystem.FileOpen` | cs439/proj1/filesys/file.c:18-34 | without memory for a handle the inode is closed again and the counts are as before |
| `FileSystems.FileSystem.FileClose` | cs439/proj1/filesys/file.c:46-54 | the last closer of a removed file takes its bytes along; every other close keeps all contents |
| `Palloc.BitmapFits` | cs439/proj1/threads/palloc.c:153-170 | the pages set aside hold the bitmap of a pool, and one page fewer would not |
| `Palloc.PageAllocator.constructor` | cs439/proj1/threads/palloc.c:46-62 | two pools of disjoint address ranges, each behind its own bitmap, their bases and lengths, all pages free |
| `Palloc.PageAllocator.GetMultiple` | cs439/proj1/threads/palloc.c:71-101 | first fit in the chosen pool only: page-aligned address of free pages, now marked, or null and no change |
| `Palloc.PageAllocator.FreeMultiple` | cs439/proj1/threads/palloc.c:118-142 | unmarks exactly those pages in the pool they came from; its assertions hold under the precondition |
| `Arenas.BlockInside` | cs439/proj1/threads/malloc.c:286-294 | a block lies behind the header of its page, block_to_arena of it is that page, and it passes the alignment assertion |
| `Arenas.BlocksApart` | cs439/proj1/threads/malloc.c:286-294 | blocks of one arena with different indices do not overlap |
| `Arenas.BlocksDisjoint` | cs439/proj1/threads/malloc.c:90-154 | in every consistent state any two blocks, live or free, of any arenas are disjoint |
| `Arenas.BlockInArena` | cs439/proj1/threads/malloc.c:90-154 | every block lies inside the pages of its arena, behind the header |
| `Arenas.FreeIsBlock` | cs439/proj1/threads/malloc.c:90-154 | what a free list holds is a block of an arena of its own descriptor, and not live |
| `Arenas.TakeBlock` | cs439/proj1/threads/malloc.c:148-153 | popping a free list turns one free block into a live one and keeps free_cnt equal to the free blocks of the arena |
| `Arenas.PutBlock` | cs439/proj1/threads/malloc.c:238-242 | pushing a live block back is the inverse step |
| `Arenas.AddArena` | cs439/proj1/threads/malloc.c:137-146 | carving a page keeps the invariant, with all its blocks on the free list |
| `Arenas.DropArena` | cs439/proj1/threads/malloc.c:241-253 | returning a wholly free arena keeps the invariant when the list loses exactly its blocks |
| `Arenas.AddBig` | cs439/proj1/threads/malloc.c:105-120 | a multi-page block joins without touching the others |
| `Arenas.DropBig` | cs439/proj1/threads/malloc.c:257-262 | and leaves again |
| `Arenas.PagesTaken` | cs439/proj1/threads/malloc.c:90-154 | taking free pages keeps arenas on pages of their own, apart from other users of the pool |
| `Arenas.PagesReturned` | cs439/proj1/threads/malloc.c:219-264 | returning the pages of one arena keeps the pages of all others in use |
| `Arenas.NothingRetained` | cs439/proj1/threads/malloc.c:219-264 | with nothing live no arena is left |
| `Malloc.ClassForTight` | cs439/proj1/threads/malloc.c:100-105 | a small class is found exactly for sizes up to 1024, and wastes less than half of the block |
| `Malloc.PagesForEnough` | cs439/proj1/threads/malloc.c:109 | the page count holds the request if and only if size is at most 2^32 - 12; beyond that the sum wraps to one page |
| `Malloc.UndersizedBlock` | cs439/proj1/threads/malloc.c:109 | the failing input: 2^32 - 11 bytes get one page |
| `Malloc.ProductsMissed` | cs439/proj1/threads/malloc.c:163-166 | two products that the check of calloc lets through: one that wraps, and one that does not but overruns the page that malloc returns for it |
| `Malloc.NoRoomExact` | cs439/proj1/threads/malloc.c:90-154 | no memory is found exactly if the list of the smallest class that fits is empty and every page is taken; for larger sizes, if there are not as many free pages in a row |
| `Malloc.ChecksAlwaysPass` | cs439/proj1/threads/malloc.c:268-282 | every assertion of block_to_arena holds for every block |
| `Malloc.OthersKept` | cs439/proj1/threads/malloc.c:159-214 | writing inside one live block leaves the bytes of all other live blocks |
| `Malloc.OtherPagesKept` | cs439/proj1/threads/malloc.c:219-264 | clearing the freed pages leaves the bytes of all blocks on other pages |
| `Malloc.RemoveExact` | cs439/proj1/threads/malloc.c:247-251 | taking an element off a free list removes it and nothing else |
| `Malloc.CopyKept` | cs439/proj1/threads/malloc.c:195-214 | copying into the new block and then freeing the old one keeps the copied bytes and all other blocks |
| `Malloc.Allocator.constructor` | cs439/proj1/threads/malloc.c:72-85 | seven descriptors, 16 to 1024 bytes, all lists empty, and the invariant |
| `Malloc.Allocator.Malloc` | cs439/proj1/threads/malloc.c:90-154 | null exactly for size 0 or when no memory is found; otherwise a new live block of at least the size (if and only if size is at most 2^32 - 12), live blocks and bytes kept |
| `Malloc.Allocator.BigBlock` | cs439/proj1/threads/malloc.c:105-120 | the same for sizes no descriptor satisfies |
| `Malloc.Allocator.NewArena` | cs439/proj1/threads/malloc.c:124-146 | a new arena exactly when a page is free |
| `Malloc.Allocator.PopBlock` | cs439/proj1/threads/malloc.c:148-153 | a block that was not live, of the size of its class |
| `Malloc.Allocator.Calloc` | cs439/proj1/threads/malloc.c:159-175 | null exactly when the product fails the check, is 0, or finds no memory; otherwise a zeroed block, which holds a*b bytes if and only if a*b does not wrap; the exact condition under which memset leaves the block |
| `Malloc.Allocator.Realloc` | cs439/proj1/threads/malloc.c:195-214 | null exactly for size 0 or when malloc finds no memory, and then nothing is freed but for size 0; otherwise the common prefix of old and new block is kept, the old block is freed, all other blocks keep sizes and bytes; the exact condition under which memcpy leaves the block |
| `Malloc.Allocator.Free` | cs439/proj1/threads/malloc.c:219-264 | the block is no longer live; sizes and bytes of all other live blocks are kept; the user pool is untouched |
| `Malloc.Allocator.FreeBig` | cs439/proj1/threads/malloc.c:257-262 | the same for a big block |
| `Malloc.Allocator.FreeSmall` | cs439/proj1/threads/malloc.c:227-256 | the same for a small one, with the arena returned when its last block is freed |
| `Malloc.Allocator.ReturnArena` | cs439/proj1/threads/malloc.c:241-253 | a wholly free arena goes back to the page pool and none is left idle |
| `Malloc.Allocator.Unlink` | cs439/proj1/threads/malloc.c:247-251 | the loop removes from the list exactly the blocks on that page |
| `Malloc.Allocator.BlockToArena` | cs439/proj1/threads/malloc.c:268-282 | the page of a block, for every block that passes the assertions |
| `Malloc.Allocator.LiveBlocks` | cs439/proj1/threads/malloc.c:90-154 | between calls live blocks are pairwise disjoint and inside the arena that block_to_arena finds |
| `Malloc.Allocator.AllReturned` | cs439/proj1/threads/malloc.c:219-264 | when nothing is live, the pages in use are just those of other users of the pool |
| `Scheduling.TopIsGreatest` | cs439/proj1/threads/thread.c:544-565 | the chosen thread is a greatest one if and only if some thread is above PRI_MIN or the first is a greatest |
| `Scheduling.TopUnique` | cs439/proj1/threads/thread.c:544-565 | first of the greatest priority above PRI_MIN, else the first: this determines the choice |
| `SchedulingSteps.StepOk` | cs439/proj1/threads/thread.c:228-257 | every step of every thread, and a timer interrupt at any point, keeps the whole invariant: lists, one RUNNING thread, semaphore counts, wakeups, locks, sleepers |
| `SchedulingSteps.MovedLists` | cs439/proj1/threads/thread.c:228-329 | before schedule() each step leaves ready_list with exactly the READY threads but idle, and waiters BLOCKED |
| `SchedulingSteps.MovedCore` | cs439/proj1/threads/synch.c:61-143 | each step keeps value + downs = initial + ups, no lost wakeup, and lock counts |
| `SchedulingSteps.RaisedWakeups` | cs439/proj1/threads/synch.c:111-143 | an up with waiters adds a woken thread for the value it adds |
| `SchedulingSteps.EnterLock` | cs439/proj1/threads/synch.c:218-246 | a completed down of a free lock makes its thread the only one inside |
| `SchedulingSteps.LeaveLock` | cs439/proj1/threads/synch.c:333-334 | the up of a lock leaves nobody inside |
| `SchedulingSteps.NoHolder` | cs439/proj1/threads/synch.c:218-246 | between a completed down and the assignment of holder, and between its clearing and the up, holder is null |
| `SchedulingSteps.DecrementedOk` | cs439/proj1/devices/timer.c:179-190 | decr_ticks on any thread keeps the invariant |
| `SchedulingSteps.ForeachOk` | cs439/proj1/devices/timer.c:197-204 | so does the whole walk over all_list in the interrupt |
| `SchedulingRuns.StartOk` | cs439/proj1/threads/thread.c:88-118 | the invariant holds once thread_start() has returned |
| `SchedulingRuns.EveryRun` | cs439/proj1/threads/thread.c:228-329 | over every sequence of steps from there, among them the two halves of thread_create: lists as stated, value = initial + ups - downs, no lost wakeup, and lock value + threads inside = 1 |
| `SchedulingRuns.OneListAtMost` | cs439/proj1/threads/thread.c:543-565 | the list element of a thread is on at most one list, ready_list if READY and one list of waiters if BLOCKED |
| `SchedulingRuns.AfterSwitch` | cs439/proj1/threads/thread.c:316-329 | after a switch nobody READY outranks the running thread if and only if a ready thread was above PRI_MIN or the first was a greatest |
| `SchedulingRuns.NobodyOutranks` | cs439/proj1/threads/thread.c:316-329 | with priorities of at least PRI_MIN, as init_thread asserts, nobody does |
| `SchedulingRuns.BoundedWait` | cs439/proj1/threads/thread.c:316-329 | with fixed priorities a top-priority ready thread with k equals ahead of it runs within k+1 switches, in every run |
| `Preemption.SliceFromBoot` | cs439/proj1/threads/thread.c:122-140 | in every state of every run from boot, fewer than four ticks have passed since the last switch |
| `Preemption.RunsInTime` | cs439/proj1/threads/thread.c:122-140 | with fixed priorities a ready thread that none outranks, with k equals ahead of it, runs within 4 * (k + 1) ticks, those of the slice under way counted, in every run |
| `Preemption.NotTooEarly` | cs439/proj1/threads/thread.c:122-140 | a thread that does not yield, block or exit keeps the processor through the first three ticks of its slice, whatever else happens |
| `SemaphoreRuns.AttemptExact` | cs439/proj1/threads/synch.c:61-76 | a pass through sema_down ends it exactly if the value was positive; else the thread is BLOCKED and another one runs |
| `SemaphoreRuns.ValueConserved` | cs439/proj1/threads/synch.c:61-143 | over every run, the value of a semaphore rises by one for each sema_up and falls by one for each sema_down or sema_try_down that is completed, and by nothing else |
| `SemaphoreRuns.StepSema` | cs439/proj1/threads/synch.c:61-143 | an up takes one waiter that none outranks off the list and rouses it; a thread that waits joins at the end; no other step touches value or waiters |
| `SemaphoreRuns.RousedInTurn` | cs439/proj1/threads/synch.c:111-143 | with fixed priorities a waiter that none outranks, with k equals ahead of it, is roused within k + 1 ups, in every run |
| `SchedulingRuns.MutualExclusion` | cs439/proj1/threads/synch.c:199-267 | two threads between a completed down of a lock and their up are the same thread, and a non-null holder is that thread |
| `SchedulingRuns.SleepExact` | cs439/proj1/devices/timer.c:92-104 | over every run after timer_sleep(n): no up before tick max(1,n), exactly one from then on, so never early and never missed, even if the tick precedes sema_down |
| `Threads.Kernel.constructor` | cs439/proj1/threads/thread.c:88-118 | the start state of the runs above |
| `Threads.Kernel.NextThreadToRun` | cs439/proj1/threads/thread.c:544-565 | the code takes the thread of the specification off ready_list |
| `Threads.Kernel.TopIndex` | cs439/proj1/threads/thread.c:544-565 | the scan with its running maximum finds that thread |
| `Threads.Kernel.Schedule` | cs439/proj1/threads/thread.c:622-635 | is the switch of the step system |
| `Threads.Kernel.ThreadBlock` | cs439/proj1/threads/thread.c:228-235 | blocks the running thread and switches |
| `Threads.Kernel.ThreadUnblock` | cs439/proj1/threads/thread.c:246-257 | readies exactly that thread, at the end of ready_list |
| `Threads.Kernel.ThreadYield` | cs439/proj1/threads/thread.c:316-329 | is a yield step; idle does not enter ready_list |
| `Threads.Kernel.IdleBlock` | cs439/proj1/threads/thread.c:436-462 | is an idle step |
| `Threads.Kernel.InitThread` | cs439/proj1/threads/thread.c:500-518 | a BLOCKED thread with ticks -1 and a semaphore of its own, on all_list |
| `Threads.Kernel.ThreadCreate` | cs439/proj1/threads/thread.c:166-218 | is a create step, an unblock step and a yield, between which other threads may run; the invariant is kept |
| `Threads.Kernel.ThreadExit` | cs439/proj1/threads/thread.c:295-311 | is an exit step |
| `Threads.Kernel.SemaInit` | cs439/proj1/threads/synch.c:45-51 | is an init step on a fresh semaphore with that value and no waiters |
| `Threads.Kernel.Raise` | cs439/proj1/threads/synch.c:111-143 | the code of sema_up refines its step: one waiter of greatest priority woken, value one more |
| `Threads.Kernel.WakeTop` | cs439/proj1/threads/synch.c:111-143 | wakes the first waiter of greatest priority and removes only that one |
| `Threads.Kernel.SemaUp` | cs439/proj1/threads/synch.c:111-143 | up, and a yield outside interrupt handlers; the invariant is kept |
| `Threads.Kernel.SemaTryDown` | cs439/proj1/threads/synch.c:84-102 | is a try-down step that succeeds exactly when the value is positive |
| `Threads.Kernel.SemaDownPass` | cs439/proj1/threads/synch.c:61-76 | one pass through the loop is an attempt step, done exactly when the value was positive |
| `Threads.Kernel.BeginDown` | cs439/proj1/threads/synch.c:61-76 | entering sema_down is a down step |
| `Threads.Kernel.RecordHolder` | cs439/proj1/threads/synch.c:243-245 | recording the holder after the down is a set-holder step |
| `Threads.Kernel.HandOver` | cs439/proj1/threads/synch.c:333-334 | clearing the holder and the up of the semaphore |
| `Threads.Kernel.TimerSleep` | cs439/proj1/devices/timer.c:92-104 | is a sleep step, negative ticks stored as 0 |
| `Threads.Kernel.DecrTicks` | cs439/proj1/devices/timer.c:179-190 | refines the decrement of the step system, with the up at 0 and ticks reset to -1 |
| `Threads.Kernel.ForeachDecrTicks` | cs439/proj1/devices/timer.c:197-204 | the walk over all_list does so for every thread, in order |
| `Threads.Kernel.TimerInterrupt` | cs439/proj1/devices/timer.c:197-204 | is a tick step of the runs above, where the fourth tick of a slice takes the processor away, and no earlier one |
| `Threads.Kernel.SetPriority` | cs439/proj1/threads/thread.c:351-381 | assigning a priority keeps the scheduler invariant |
| `Conditions.FirstHighestUnique` | cs439/proj1/threads/synch.c:422-448 | the first waiter of the greatest rank is unique, where priorities up to PRI_MIN rank alike |
| `Conditions.OrderPermutes` | cs439/proj1/threads/synch.c:457-465 | a broadcast signals every waiter, each exactly once |
| `Conditions.BroadcastOrder` | cs439/proj1/threads/synch.c:457-465 | of two waiters the earlier one is signalled first if and only if the other does not outrank it, by the priorities stored at the time of waiting |
| `Conditions.SignalPicksGreatest` | cs439/proj1/threads/synch.c:422-448 | the picked waiter has the greatest current priority if and only if no waiter whose priority has changed since cond_wait is above it, and neither is any other one, which matters only if the picked one was not above PRI_MIN or has been lowered |
| `Conditions.SignalUnchanged` | cs439/proj1/threads/synch.c:422-448 | with all priorities as at cond_wait: if and only if some waiter is above PRI_MIN or the first is a greatest |
| `Conditions.BroadcastByPriority` | cs439/proj1/threads/synch.c:457-465 | a broadcast wakes in the order of current priorities if and only if each two waiters are in the same order by the stored ones |
| `Conditions.SignalMissesDonation` | cs439/proj1/threads/synch.c:422-448 | the failing input: waiters stored at 31 and 30, the second raised to 40 by the donation walk, and the first is picked |
| `Conditions.EachRaisedOnce` | cs439/proj1/threads/synch.c:457-465 | ups of distinct semaphores count once for each of them and for no other, in any state of the invariant |
| `Conditions.BroadcastReachesAll` | cs439/proj1/threads/synch.c:457-465 | a broadcast ups the semaphore of every waiter exactly once and no other semaphore |
| `Conditions.SignalKept` | cs439/proj1/threads/synch.c:395-410 | a signal that precedes the sema_down of its waiter is not lost: the value stays positive until a down completes |
| `Conditions.Condition.Register` | cs439/proj1/threads/synch.c:395-405 | a waiter joins at the end with a fresh semaphore at 0 and the priority of its thread |
| `Conditions.Condition.Highest` | cs439/proj1/threads/synch.c:431-442 | the scan finds the waiter of the specification |
| `Conditions.Condition.Signal` | cs439/proj1/threads/synch.c:422-448 | removes that waiter and ups its semaphore; without waiters nothing happens; when that waiter has the greatest current priority |
| `Conditions.Condition.Broadcast` | cs439/proj1/threads/synch.c:457-465 | empties the list and ups the semaphores in the order above |
| `Donation.DonationExact` | cs439/proj1/threads/synch.c:224-241 | the walk raises each thread on the chain to the donor priority and no other thread, and restores the order: nobody ranks below a thread that waits for it |
| `Donation.WalkEndsIff` | cs439/proj1/threads/synch.c:231-241 | the walk ends if and only if the holder is not the thread itself and its wait_thread pointers do not lead back to it |
| `Donation.CircularWait` | cs439/proj1/threads/synch.c:231-241 | two pointers that lead to each other have no end |
| `Donation.WaitAcyclic` | cs439/proj1/threads/synch.c:224-241 | and then no chain of waits is endless |
| `Donation.DonateKeeps` | cs439/proj1/threads/synch.c:224-241 | so lock_acquire keeps order and acyclicity, and lowers no priority |
| `Donation.RewiredOk` | cs439/proj1/threads/synch.c:285-312 | handing the waits of a lock to its top waiter keeps order and acyclicity; all other waiters then wait for the top one, that waits for nobody, and no other wait changes |
| `Donation.WakesTheChosen` | cs439/proj1/threads/synch.c:285-334 | the waiter to which lock_release hands the waits is the one that its sema_up wakes, and the lock is then free |
| `Donation.TopWaiter` | cs439/proj1/threads/synch.c:289-303 | the scan finds the first waiter of greatest priority, or nothing exactly when none is above PRI_MIN |
| `Donation.Rewire` | cs439/proj1/threads/synch.c:305-313 | all other waiters wait for the top one |
| `Donation.Walk` | cs439/proj1/threads/synch.c:231-241 | the loop over wait_thread pointers refines the walk of the specification, and terminates |
| `Donation.PassOn` | cs439/proj1/threads/synch.c:233-240 | the body of the loop: one store of a priority, a step of its own, or none |
| `Donation.Donate` | cs439/proj1/threads/synch.c:218-241 | lock_acquire before its sema_down: the wait is entered and donated, each store a step; without a holder nothing changes |
| `Donation.LockAcquirePass` | cs439/proj1/threads/synch.c:243-245 | a pass through the sema_down, and, if that ends the down, the holder is recorded and the wait ended: an attempt step and a set-holder step |
| `Donation.LockAcquire` | cs439/proj1/threads/synch.c:218-246 | up to its first switch or its end: the walk, a down, an attempt and, when the lock was free, a set-holder step; order and acyclicity kept |
| `Donation.LockTryAcquire` | cs439/proj1/threads/synch.c:256-267 | a try-down step, and a set-holder step exactly when the value was positive |
| `Donation.RewireWaiters` | cs439/proj1/threads/synch.c:288-315 | the top_thread variable is assigned exactly when waiters exist and one is above PRI_MIN, or there are none; then order and acyclicity are kept |
| `Donation.HighestDonated` | cs439/proj1/threads/synch.c:317-331 | the greatest of the base priority and the priorities of the threads waiting for this one |
| `Donation.PrepareRelease` | cs439/proj1/threads/synch.c:282-332 | the waits and the new priority that lock_release computes keep the order |
| `Donation.LockRelease` | cs439/proj1/threads/synch.c:277-338 | as one step: defined exactly under the condition above; scheduler invariant, order and acyclicity kept; up, new priority, yield |
| `Donation.HighestExact` | cs439/proj1/threads/thread.c:351-381 | there is one recomputed priority, and it is the base priority exactly if no donor is above that |
| `Donation.RecomputedOrdered` | cs439/proj1/threads/thread.c:351-381 | a priority recomputed as the highest of base and donated ones keeps the order, if its thread waits for nobody |
| `Donation.Recompute` | cs439/proj1/threads/thread.c:356-376 | the code computes that priority for the running thread |
| `Donation.ThreadSetPriority` | cs439/proj1/threads/thread.c:351-381 | the new base priority, the recomputed priority, order kept, and a yield exactly when it was lowered |
| `Scenarios.ChainRuns` | cs439/proj1/threads/thread.c:228-329 | states that follow each other by steps make a run |
| `Scenarios.LowPriorityMissed` | cs439/proj1/threads/thread.c:544-565 | a run from boot after which thread_yield runs a thread at -5 and leaves one at -3 ready |
| `Circles.WaitsRun` | cs439/proj1/threads/synch.c:224-245 | the wait_thread pointers along a run, by the events of its steps |
| `Circles.DeadlockRun` | cs439/proj1/threads/synch.c:231-241 | a run from boot to a deadlock: main holds one lock and waits for the other, whose holder acquires the first; its walk does not end |
| `Circles.StaleRun` | cs439/proj1/threads/synch.c:231-241 | a run from boot to a circle without a deadlock: main is preempted between storing wait_thread and its sema_down, the holder releases the lock and acquires one that main holds; nobody waits, and its walk does not end |
| `Scenarios.TopThreadUnassigned` | cs439/proj1/threads/synch.c:288-305 | a run from boot after which main can release a lock whose one waiter is at PRI_MIN, so that top_thread has no value |
| `PageDir.EntryRoundTrip` | cs439/proj1/threads/pte.h:70-104 | an entry made for a table or page gives back that table or page and the write flag |
| `PageDir.UserEntry` | cs439/proj1/threads/pte.h:92-98 | below a directory entry, an entry made for the user lets the processor read the page for the user, and write it exactly if it was made writable |
| `PageDir.KernelEntry` | cs439/proj1/threads/pte.h:83-90 | an entry made for the kernel is closed to users, and writable exactly if asked for |
| `PageDir.SamePage` | cs439/proj1/threads/pte.h:32-39 | two addresses are in one page if and only if their directory and table indices agree |
| `PageDir.UserWalk` | cs439/proj1/userprog/pagedir.c:56-157 | what the processor may do at a user address depends on the page table entry alone, because every directory entry for users has all flags set |
| `PageDir.KernelShut` | cs439/proj1/userprog/pagedir.c:16-157 | no directory lets the user read or write at a kernel address, and all of them map kernel addresses alike |
| `PageDir.PteWritten` | cs439/proj1/userprog/pagedir.c:98-157 | writing one page table entry changes the translation of that page in that directory only, over all directories |
| `PageDir.TableAdded` | cs439/proj1/userprog/pagedir.c:71-80 | a new zeroed page table changes no translation |
| `PageDir.FreedExact` | cs439/proj1/userprog/pagedir.c:27-48 | what the loops free is exactly the mapped frames and page tables, without repetition if and only if no two entries share one |
| `PageDir.DestroyFreesOnce` | cs439/proj1/userprog/pagedir.c:27-48 | pagedir_destroy frees exactly the frames, the page tables and the directory, and no page twice if and only if no frame is mapped twice and none is the directory or one of its page tables |
| `PageDir.MappedTwice` | cs439/proj1/userprog/pagedir.c:27-48 | the failing input: one frame at two pages |
| `PageDir.PageDirs.constructor` | cs439/proj1/userprog/pagedir.c:16-23 | starts from an initial directory without user mappings, whose kernel page tables are closed to users |
| `PageDir.PageDirs.Create` | cs439/proj1/userprog/pagedir.c:16-23 | a directory in which every user address faults and every kernel address is walked as in the initial one; others unchanged |
| `PageDir.PageDirs.LookupPage` | cs439/proj1/userprog/pagedir.c:56-86 | the page table for an address, made if asked; null exactly when missing and not made; no translation changes |
| `PageDir.PageDirs.SetPage` | cs439/proj1/userprog/pagedir.c:98-119 | then the processor lets the user read every byte of the frame at the page, and write it exactly if writable, and at all other addresses, kernel ones too, of all directories it does what it did; fails exactly without memory for a table, and then changes nothing |
| `PageDir.PageDirs.GetPage` | cs439/proj1/userprog/pagedir.c:125-137 | the kernel address of the byte that the processor finds there, null exactly where it faults |
| `PageDir.PageDirs.ClearPage` | cs439/proj1/userprog/pagedir.c:143-157 | then the page faults, and at all other addresses of all directories the processor does what it did |
| `PageDir.PageDirs.FreeFrames` | cs439/proj1/userprog/pagedir.c:42-44 | the inner loop frees exactly the present frames of one table |
| `PageDir.PageDirs.FreeTables` | cs439/proj1/userprog/pagedir.c:36-46 | the outer loop frees frames and tables of all user entries |
| `PageDir.PageDirs.Destroy` | cs439/proj1/userprog/pagedir.c:27-48 | frees the sequence above; every other directory keeps its translations, for the processor too; the null directory is accepted |
| `PagingInit.KernelMapped` | cs439/proj1/threads/init.c:157-189 | the finished tables map exactly the memory there is, 3 GB above its physical addresses, closed to users, and writable but for the text of the kernel |
| `PagingInit.KernelReady` | cs439/proj1/threads/init.c:157-189 | they meet the invariant of page directories |
| `PagingInit.PagingInit` | cs439/proj1/threads/init.c:157-189 | the loop builds those tables, with a page table for each 4 MB |
| `Ustar.StripIdempotent` | cs439/proj1/lib/ustar.c:65-73 | stripping twice is stripping once |
| `Ustar.StripSuffix` | cs439/proj1/lib/ustar.c:65-73 | what is left is a suffix of the name, or "." |
| `Ustar.StripAntisocialPrefixes` | cs439/proj1/lib/ustar.c:65-73 | the pointer loop computes it, and terminates |
| `Ustar.StripKeeps` | cs439/proj1/lib/ustar.c:65-73 | a name that does not begin with "/", "./" or "../", and is not empty or "..", is kept |
| `Ustar.StripDrops` | cs439/proj1/lib/ustar.c:65-73 | one such prefix in front makes no difference to the result; an empty name and ".." become "." |
| `Ustar.OctalExact` | cs439/proj1/lib/ustar.c:129-162 | a field is accepted exactly if it is one octal digit or more, of a number below 2^32, and a space or a null, and then that is the number |
| `Ustar.OctalRoundTrip` | cs439/proj1/lib/ustar.c:129-162 | an octal field that is wide enough is read back unchanged |
| `Ustar.ParseOctalField` | cs439/proj1/lib/ustar.c:129-162 | the loop reads digits up to a space or null, and fails on other characters, on overflow and on a missing terminator |
| `Ustar.SumChanged` | cs439/proj1/lib/ustar.c:36-54 | the checksum ignores its own field and changes by exactly the difference of any other byte |
| `Ustar.SumOfZeros` | cs439/proj1/lib/ustar.c:36-54 | the sum of a header of zeros is that of eight spaces, which with SumChanged determines all sums |
| `Ustar.CalculateChksum` | cs439/proj1/lib/ustar.c:36-54 | the loop computes that sum |
| `Ustar.MakeHeader` | cs439/proj1/lib/ustar.c:82-118 | fails exactly for a stripped name of more than 99 bytes; otherwise every byte of the header is as specified |
| `Ustar.IsAllZeros` | cs439/proj1/lib/ustar.c:166-173 | whether all bytes are zero |
| `Ustar.ParseHeader` | cs439/proj1/lib/ustar.c:181-227 | the loop-free body with its two field loops computes the parse whose laws follow |
| `Ustar.ParseExact` | cs439/proj1/lib/ustar.c:181-227 | which headers are accepted, byte by byte: magic, version, checksum, a terminated name without prefix, type 0 with a size up to INT_MAX or type 5; what is then returned; and the end of an archive exactly for zeros |
| `Ustar.ErrorExact` | cs439/proj1/lib/ustar.c:181-227 | a header fails with the first of its flaws, in the order of the checks |
| `Ustar.HeaderFields` | cs439/proj1/lib/ustar.c:82-118 | where a made header holds name, size, type, magic and checksum |
| `Ustar.MadeFields` | cs439/proj1/lib/ustar.c:82-118 | every field of a made header, read back as a number or as characters: mode 0644 or 0755, user and group 0 and root, size, the first of January 2006, checksum, type, magic and version; zeros elsewhere |
| `Ustar.RoundTrip` | cs439/proj1/lib/ustar.c:181-227 | parsing a made header gives stripped name, type and size (0 for a directory) for every size from 0 to INT_MAX; a negative size of a regular file is refused |
| `Ustar.NegativeSizeRefused` | cs439/proj1/lib/ustar.c:181-227 | a regular file of size -1 |
| `Ustar.TamperingDetected` | cs439/proj1/lib/ustar.c:181-227 | changing any one byte outside the checksum field of any accepted header makes parsing fail |
| `Stdio.DigitsValue` | cs439/proj1/lib/stdio.c:501-513 | the digits evaluate to the value in every base, with or without grouping commas |
| `Stdio.BodyValue` | cs439/proj1/lib/stdio.c:501-524 | so does the buffer with precision zeros and the # zero |
| `Stdio.DigitsFit` | cs439/proj1/lib/stdio.c:501-513 | a 64-bit value takes at most 44 characters |
| `Stdio.FillDigits` | cs439/proj1/lib/stdio.c:504-513 | the digit loop fills the buffer with those characters |
| `Stdio.PadBuffer` | cs439/proj1/lib/stdio.c:520-522 | precision zeros stop one short of the end of the 64-byte buffer |
| `Stdio.FillBuffer` | cs439/proj1/lib/stdio.c:504-524 | the 64-byte buffer is never overrun, for any flags, base and precision |
| `Stdio.FormatInteger` | cs439/proj1/lib/stdio.c:469-547 | the output for every value, sign, base, flags, width and precision is the one whose layout StdioLayout states |
| `Stdio.OutputDup` | cs439/proj1/lib/stdio.c:549-555 | cnt copies of a character |
| `Stdio.PrecisionKept` | cs439/proj1/lib/stdio.c:520-522 | a precision is the least number of digits if and only if the value has that many, or the precision is at most 63 and no comma is among the digits |
| `Stdio.PrecisionCut` | cs439/proj1/lib/stdio.c:520-522 | a failing input: precision 64 |
| `Stdio.CommaCounted` | cs439/proj1/lib/stdio.c:501-522 | a failing input: "%'.5d" of 1234 gives four digits and a comma |
| `Stdio.FieldWidth` | cs439/proj1/lib/stdio.c:526-546 | the output is as wide as the larger of field and content if and only if not both - and 0 are set or the content fills the field; with both set it is padded twice |
| `Stdio.PrintedWidth` | cs439/proj1/lib/stdio.c:340-416 | so after parse_conversion printf keeps to the field unless it gets 0, a negative * width larger than the content, and neither - nor a precision |
| `Stdio.PaddedTwice` | cs439/proj1/lib/stdio.c:526-546 | the failing input: "%0*d" with -5 and 42 prints 8 characters |
| `Stdio.Vsnprintf` | cs439/proj1/lib/stdio.c:26-52 | returns the full length and stores a prefix with a null behind it, no byte beyond; nothing is stored for size 0 |
| `Stdio.StoredExactly` | cs439/proj1/lib/stdio.c:26-52 | that prefix is the first buf_size - 1 characters if and only if buf_size is at most 2^31 or the output is empty |
| `Stdio.NothingStored` | cs439/proj1/lib/stdio.c:26-52 | the failing input: with a buffer size of 2^31 + 1 nothing is stored |
| `StdioLayout.DigitsAt` | cs439/proj1/lib/stdio.c:501-513 | place k from the right holds a comma, or the digit of the value for that power of the base, from "0123456789abcdef" or "0123456789ABCDEF" |
| `StdioLayout.BodyAt` | cs439/proj1/lib/stdio.c:501-524 | that, with zeros to the left up to the precision, is the whole buffer; its length from the number of digits, precision and # |
| `StdioLayout.Layout` | cs439/proj1/lib/stdio.c:469-547 | every character of the output: blanks in front only without - and 0, - exactly for negative signed numbers, + and space by their flags, 0x or 0X exactly for # and a hexadecimal value other than 0, zeros between these and the digits only for 0, blanks behind only for - |
| `StdioLayout.PrintedLayout` | cs439/proj1/lib/stdio.c:340-547 | the same in terms of the conversion as it is written: - overrides 0, a negative * width stands for -, a precision disables 0, + overrides space |
| `Stdio.AtoiExact` | cs439/proj1/lib/stdlib.c:10-41 | the loop gives the number in the text if and only if that is an int |
| `Stdio.Atoi` | cs439/proj1/lib/stdlib.c:10-41 | the number that white space, sign and digits at the start of the text stand for; an int overflows exactly if that number is not an int |
| `Stdio.NumberExact` | cs439/proj1/lib/stdlib.c:10-41 | white space, one sign or none, digits, any other text: the number is that of the digits, negative exactly for - |
| `Stdio.AtoiInverse` | cs439/proj1/lib/stdlib.c:10-41 | the text printed for any integer stands for it, so atoi of what "%d" prints is the value, for every int, INT_MIN included |
| `Stdio.AtoiOverflows` | cs439/proj1/lib/stdlib.c:10-41 | the failing input: the text of 2^31; that of INT_MIN is read |
| `Monitor.CheckedCrashes` | cs361/SecureSystem/SecureSystem.java:103-118 | the check of the driver changes an instruction exactly if both names are unknown; what the check of the driver lets through and the monitor crashes on: a read by an unknown subject, a write to an unknown object |
| `Monitor.ShownRead` | cs361/SecureSystem/SecureSystem.java:119-127 | what the driver shows of a subject after its read: the value of the object if it dominates that, else 0 |
| `Monitor.ShownWrite` | cs361/SecureSystem/SecureSystem.java:128-134 | what it shows of an object after a write: the written value if the object dominates the subject, else what it showed before |
| `Monitor.CopiedSubject` | cs361/SecureSystem/SecureSystem.java:119-127 | what the driver copies is the element of the subject that reads if and only if the read is not granted in vain, or the stale element happens to be of that subject |
| `Monitor.ViewNoninterference` | cs361/SecureSystem/SecureSystem.java:101-137 | what the driver shows of all but HIGH subjects and objects does not depend on the HIGH subjects, in runs without crashes and stale instructions |
| `Monitor.StaleInterferes` | cs361/SecureSystem/SecureSystem.java:119-127 | the failing input: after a HIGH read, a LOW read of an unknown object makes the driver show the HIGH element as that of the LOW subject |
| `Monitor.SecureSystem.Copy` | cs361/SecureSystem/SecureSystem.java:119-134 | the four copies |
| `Monitor.SecureSystem.Drive` | cs361/SecureSystem/SecureSystem.java:101-137 | the loop stops at the first crash, with the monitor and the four fields as the instructions before it leave them |
| `Monitor.ReadsDown` | cs361/SecureSystem/SecurityLevel.java:4-12 | dominates is false exactly for LOW against HIGH |
| `Monitor.FoldExact` | cs361/SecureSystem/ReferenceMonitor.java:105-114 | names are equal if and only if they have, at each place, the same character or the same letter in both cases |
| `Monitor.ReadExact` | cs361/SecureSystem/ReferenceMonitor.java:57-119 | a read gives the first element of the subject the value of the first one of the object if and only if the subject has a level, and is HIGH or the object is not; else, and to every other element, nothing happens |
| `Monitor.WriteExact` | cs361/SecureSystem/ReferenceMonitor.java:57-139 | a write gives the first element of the object the value if and only if the object has a level, and is HIGH or the subject is not; else, and to every other element, nothing happens |
| `Monitor.HighUnseen` | cs361/SecureSystem/ReferenceMonitor.java:57-83 | an instruction of a HIGH subject changes nothing but HIGH elements |
| `Monitor.LowConsistent` | cs361/SecureSystem/ReferenceMonitor.java:57-139 | an instruction of any other subject acts alike on states that agree but for HIGH elements, whatever names it uses |
| `Monitor.Noninterference` | cs361/SecureSystem/ReferenceMonitor.java:57-139 | for any states that agree but for HIGH elements and any instructions: so do the states after them and after those of the other subjects alone, crashing ones skipped |
| `Monitor.HighActsUnseen` | cs361/SecureSystem/ReferenceMonitor.java:57-139 | the same from one state |
| `Monitor.HaltsAlike` | cs361/SecureSystem/ReferenceMonitor.java:57-83 | for a monitor that stops at its first crash: the other subjects get the same instructions done without the HIGH ones if and only if no HIGH subject crashes it before an instruction that could be done |
| `Monitor.HaltingNoninterference` | cs361/SecureSystem/ReferenceMonitor.java:57-139 | and then all elements but HIGH ones are the same where it stops |
| `Monitor.CrashInterferes` | cs361/SecureSystem/ReferenceMonitor.java:57-139 | the failing input: a HIGH subject writes to an unknown object, and a LOW write after it is not done |
| `Monitor.ReferenceMonitor.Permission` | cs361/SecureSystem/ReferenceMonitor.java:57-83 | grants a read exactly if the subject has a level and is HIGH or the object is not, a write exactly if the object has one and is HIGH or the subject is not; what is granted is done as ReadExact and WriteExact say, and crashes exactly on a subject or object without a level where it is dereferenced |
| `Monitor.ReferenceMonitor.ProcessInstruction` | cs361/SecureSystem/ReferenceMonitor.java:100-139 | the nested loops assign to the first subject or object of that name |
| `Monitor.ReferenceMonitor.FirstNamed` | cs361/SecureSystem/ReferenceMonitor.java:105-114 | each loop stops at the first element whose name matches but for case |

## Left out

- Conditions.Condition.Broadcast: the yields inside its `sema_up` calls are left to later steps of the step system, because other threads may run there; the caller holds the lock, so no waiter joins in between.
- Conditions.Condition.Register: ends where `lock_release` begins; the release, the down and the acquire of `cond_wait` are the steps modelled elsewhere.
- Donation.LockRelease: one step, with the yield of its `sema_up` taken at the end. In the code the priority computed before that yield is assigned after it, so exactness of donation over whole runs is not claimed.
- Donation.Donate: each store of the walk is a step, but the method takes them in a row; that priorities change between them is not part of its contract.
- Donation.LockAcquire: ends at the first context switch; each later pass is `Donation.LockAcquirePass`, which begins when the thread runs again.
- Threads.Kernel.SemaDownPass: one pass of the loop of `sema_down`; after a switch the next pass is a step of its own, which allows more interleavings than the code has.
- Threads.Kernel.SetPriority: any priority may be given to any thread at any step of the step system; that is how donated priorities enter the run theorems.
- Threads.Kernel.constructor: boot up to the idle thread's first block is not modelled; runs begin there.
- Threads.Kernel.ThreadCreate: init_thread is one step, though it puts the thread on all_list with interrupts on; the lock around thread ids is not modelled.
- Threads.Kernel.ThreadExit: the page of a dead thread is not reused and thread ids are not modelled.
- FileSystems.FileSystem.FreeMapAllocate: the outcome of writing the free map to its file is a parameter; the copy of the map on the device is not modelled, nor are free_map_open and free_map_close beyond the opening of the inode.
- FileSystems.FileSystem.FreeMapRelease: the write of the map to its file, whose result the code ignores, is not modelled.
- FileSystems.FileSystem.InodeCreate: "every other sector" is but for those of the free-map file, which the allocation rewrites through `bitmap_write`; the content of that file is never read by what is modelled here.
- FileSystems.FileSystem.ReleaseSectors: nor are the writes of the map to its file by the two releases modelled.
- FileSystems.FileSystem.StoreFile: file 0, the free map's, is not among the contents it speaks of, and its writes by the allocation are not modelled; the same holds for CreateEntry and FilesysCreate.
- FileSystems.FileSystem.CreateEntry: likewise.
- FileSystems.FileSystem.FilesysCreate: whether each of its allocations finds memory is a parameter (`Resources`); a read in the directory always finds memory for its bounce buffer.
- Inodes.WriteAt: the counter of `inode_deny_write` is a field that is read; the calls that change it are not modelled.
- Malloc.Allocator.Free: list pointers stored inside free blocks are not modelled as bytes, so the bytes of free blocks after `free` are those of the memset.
- Malloc.Allocator.Malloc: the locks around the free lists are not modelled; calls are one at a time.
- Malloc.Allocator.Calloc: says nothing about the state after a memset that left its block; neither does Realloc after such a memcpy.
- Palloc.PageAllocator.GetMultiple: PAL_ZERO and PAL_ASSERT and the locks of the pools; the 0xcc fill of freed pages is modelled for arenas in Malloc only.
- Palloc.PageAllocator.FreeMultiple: the 0xcc fill of freed pages is part of Malloc, not of this contract.
- PageDir.PageDirs.Destroy: the list of freed pages stands for the calls of `palloc_free_page`; user data in pages is not modelled.
- PageDir.PageDirs.ClearPage: the TLB; dirty and accessed bits are never set by code in the model.
- PageDir.UserWalk: the processor's walk is that of `Mmu.Walk`, without the accessed and dirty bits, large pages and the TLB; the write-protect bit of CR0 is taken to be set, as `threads/start.S` sets it.
- PagingInit.PagingInit: the pages that `palloc_get_page` returns are a parameter; loading CR3 is not modelled.
- PageDir.EntryRoundTrip: bit operations on entries are written as sums and remainders of their fields.
- Sorting.Sort: the comparison function is a mathematical function of the two elements; `qsort` and `bsearch` are the same with another calling convention.
- Stdio.Vsnprintf: takes the whole output as a sequence; `__vprintf`, `format_string`, `hex_dump` and the scanning of format characters are not modelled (`Stdio.ParseConversion` has what parse_conversion makes of flags, width and precision). The field width is not bounded by an int.
- Stdio.Atoi: reports an int overflow as a flag, where C leaves the result undefined.
- Ustar.MakeHeader: the error text printed for a long name; `snprintf` of octal fields is the function `Octal`.
- Monitor.ReferenceMonitor.Permission: names are compared after folding ASCII letters only; parsing and printing in `InstructionObject` and `SecureSystem`; an end-of-file operation is treated like a bad instruction; the value of a write is an int that parses.
- Monitor.HaltingNoninterference: whether the monitor has crashed is not itself taken as visible to LOW, only values and which instructions are done.
- The value of a semaphore and the tick counter do not wrap. `lock_init`, `lock_held_by_current_thread` and the accessors of thread.c have no members of their own beyond the steps that use them.
- The kernel's list.c and bitmap.c are not part of this model; lists are sequences and bitmaps boolean arrays with a first-fit scan.
- Hardware and boot (devices other than the timer's ticks, interrupt set-up, GDT and TSS, `switch_threads`, the assembly of `divl`), partitions, system calls, process loading, `intq.c`, `random.c`, `string.c`, fsutil and the user programs: out of scope, or easier than what is here.
- The exercises under `cs105`, `cs345`, `cs356`, `cs439/proj0` and the rest of `cs361`: sockets, generated parsers and small programs.
