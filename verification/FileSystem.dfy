/** The file system as a whole (filesys/filesys.c, filesys/free-map.c and the open-inode list
    of filesys/inode.c): files are created, opened, removed and closed, and an inode outlives
    its name for as long as it is open. */
module FileSystems {
  import opened Bytes
  import opened Bitmaps
  import opened Inodes
  import opened Ownership
  import opened Directories

  // ----- names against files -----

  ghost predicate Named(es: seq<DirEntry>, s: nat) {
    exists k :: 0 <= k < |es| && es[k].inUse && es[k].sector == s
  }

  /** Every file but the two system files has exactly one name, or is removed and still open. */
  ghost predicate NamesOk(files: Files, es: seq<DirEntry>, removed: set<nat>) {
    && WellFormed(es)
    && (forall k :: 0 <= k < |es| && es[k].inUse ==>
          es[k].sector in files && es[k].sector > ROOT_DIR_SECTOR && es[k].sector !in removed)
    && (forall j, k :: 0 <= j < |es| && 0 <= k < |es| && es[j].inUse && es[k].inUse && es[j].sector == es[k].sector ==> j == k)
    && (forall s :: s in removed ==> s in files && s > ROOT_DIR_SECTOR)
    && (forall s :: s in files && s > ROOT_DIR_SECTOR ==> s in removed || Named(es, s))
  }

  lemma NameAdded(files: Files, es: seq<DirEntry>, removed: set<nat>, k: nat, name: Name, s: nat, h: InodeDisk)
    requires NamesOk(files, es, removed) && k < |es| && !es[k].inUse
    requires 0 < |name| <= NAME_MAX && Unused(es, name) && s !in files && ROOT_DIR_SECTOR < s < WORD_LIMIT
    ensures var fs := es[k := DirEntry(s, name, true)];
            NamesOk(files[s := h], fs, removed) && Names(fs) == Names(es)[name := s]
  {
    var fs := es[k := DirEntry(s, name, true)];
    NamesAfterAdd(es, k, DirEntry(s, name, true));
    assert fs[k].inUse && fs[k].sector == s;
    forall t | t in files[s := h] && t > ROOT_DIR_SECTOR
      ensures t in removed || Named(fs, t)
    {
      if t != s && t !in removed {
        var j :| 0 <= j < |es| && es[j].inUse && es[j].sector == t;
        assert fs[j] == es[j];
      }
    }
  }

  /** Erasing a name makes its file a removed one. */
  lemma NameErased(files: Files, es: seq<DirEntry>, removed: set<nat>, k: nat, e: DirEntry)
    requires NamesOk(files, es, removed) && k < |es| && es[k].inUse && !e.inUse
    ensures NamesOk(files, es[k := e], removed + {es[k].sector})
    ensures Names(es[k := e]) == Names(es) - {es[k].name}
    ensures es[k].name in Names(es) && Names(es)[es[k].name] == es[k].sector
  {
    var fs, s := es[k := e], es[k].sector;
    NamesAfterErase(es, k, e);
    EntryHasName(es, k);
    forall t | t in files && t > ROOT_DIR_SECTOR
      ensures t in removed + {s} || Named(fs, t)
    {
      if t != s && t !in removed {
        var j :| 0 <= j < |es| && es[j].inUse && es[j].sector == t;
        assert fs[j] == es[j];
      }
    }
  }

  lemma RemovedFacts(files: Files, es: seq<DirEntry>, removed: set<nat>)
    requires NamesOk(files, es, removed)
    ensures forall s :: s in removed ==> s in files && s > ROOT_DIR_SECTOR
  {
  }

  lemma RemovedDropped(files: Files, es: seq<DirEntry>, removed: set<nat>, s: nat)
    requires NamesOk(files, es, removed) && s in removed
    ensures NamesOk(files - {s}, es, removed - {s})
  {
  }

  // ----- the list of open inodes -----

  /** How often an inode is open, whether its file is removed, and who denies writes. */
  datatype Ref = Ref(count: int, removed: bool, denied: int)

  ghost function RefAt(i: Inode): Ref
    reads i
  {
    Ref(i.openCnt, i.removed, i.denyWriteCnt)
  }

  /** The open inodes as a map; the order of the list carries no meaning. */
  ghost function RefsOf(opens: seq<Inode>): map<nat, Ref>
    reads opens
  {
    if opens == [] then map[] else RefsOf(opens[1..])[opens[0].sector := RefAt(opens[0])]
  }

  ghost predicate SectorsDistinct(opens: seq<Inode>) {
    forall i, j :: 0 <= i < j < |opens| ==> opens[i].sector != opens[j].sector
  }

  ghost predicate IsRefs(opens: seq<Inode>, refs: map<nat, Ref>)
    reads opens
  {
    && (forall i :: i in opens ==> i.sector in refs && refs[i.sector] == RefAt(i))
    && (forall s :: s in refs ==> exists i :: i in opens && i.sector == s)
  }

  lemma {:induction false} RefsMeaning(opens: seq<Inode>)
    requires SectorsDistinct(opens)
    ensures IsRefs(opens, RefsOf(opens))
  {
    if opens != [] {
      var rest := opens[1..];
      RefsMeaning(rest);
      assert forall i :: i in opens <==> i == opens[0] || i in rest;
      forall i | i in rest
        ensures i.sector != opens[0].sector
      {
        var k :| 0 <= k < |rest| && rest[k] == i;
        assert opens[k + 1] == i;
      }
    }
  }

  /** The map is determined by the list. */
  lemma RefsUnique(opens: seq<Inode>, refs: map<nat, Ref>)
    requires SectorsDistinct(opens) && IsRefs(opens, refs)
    ensures RefsOf(opens) == refs
  {
    RefsMeaning(opens);
  }

  lemma SameSectorSameInode(opens: seq<Inode>, i: Inode, j: Inode)
    requires SectorsDistinct(opens) && i in opens && j in opens && i.sector == j.sector
    ensures i == j
  {
  }

  /** One more opener of sector s. */
  function Acquired(refs: map<nat, Ref>, s: nat): map<nat, Ref> {
    if s in refs then refs[s := refs[s].(count := refs[s].count + 1)] else refs[s := Ref(1, false, 0)]
  }

  /** One opener fewer. */
  function Dropped(refs: map<nat, Ref>, s: nat): map<nat, Ref>
    requires s in refs
  {
    if refs[s].count == 1 then refs - {s} else refs[s := refs[s].(count := refs[s].count - 1)]
  }

  ghost predicate Counted(refs: map<nat, Ref>) {
    forall s :: s in refs ==> refs[s].count >= 1
  }

  /** Opening and closing cancel, also around another opening. */
  lemma AcquiredDropped(refs: map<nat, Ref>, s: nat, t: nat)
    requires Counted(refs)
    ensures s in Acquired(refs, s) && Dropped(Acquired(refs, s), s) == refs
    ensures s != t ==> s in Acquired(Acquired(refs, s), t) && Dropped(Acquired(Acquired(refs, s), t), s) == Acquired(refs, t)
  {
  }

  lemma AcquiredFlags(refs: map<nat, Ref>, s: nat)
    ensures s in Acquired(refs, s) && Acquired(refs, s)[s].denied == if s in refs then refs[s].denied else 0
  {
  }

  /** The counts after opening, perhaps marking, and closing again. */
  lemma ClosedTarget(refs: map<nat, Ref>, s: nat)
    requires Counted(refs) && s !in RemovedIn(refs)
    ensures var a := Acquired(refs, s);
            && s in a && !a[s].removed && Dropped(a, s) == refs
            && var b := a[s := a[s].(removed := true)];
               Dropped(b, s) == if s in refs then refs[s := refs[s].(removed := true)] else refs
  {
  }

  /** Marking another inode does not disturb the closing of the root directory. */
  lemma MarkedDropped(refs: map<nat, Ref>, s: nat)
    requires Counted(refs)
    ensures s in refs && s != ROOT_DIR_SECTOR ==>
              var a := Acquired(refs, ROOT_DIR_SECTOR);
              && s in a && a[s] == refs[s] && ROOT_DIR_SECTOR in a
              && Dropped(a[s := a[s].(removed := true)], ROOT_DIR_SECTOR) == refs[s := refs[s].(removed := true)]
  {
  }

  lemma AcquiredElse(refs: map<nat, Ref>, s: nat)
    ensures forall t :: t in Acquired(refs, s) <==> t == s || t in refs
    ensures forall t :: t in refs && t != s ==> Acquired(refs, s)[t] == refs[t]
  {
  }

  ghost function RemovedIn(refs: map<nat, Ref>): set<nat> {
    set s | s in refs && refs[s].removed
  }

  lemma RemovedAfter(refs: map<nat, Ref>, s: nat)
    ensures RemovedIn(Acquired(refs, s)) == RemovedIn(refs)
    ensures s in refs ==> RemovedIn(Dropped(refs, s)) == if refs[s].count == 1 then RemovedIn(refs) - {s} else RemovedIn(refs)
  {
  }

  lemma RemovedMarked(refs: map<nat, Ref>, s: nat)
    requires s in refs
    ensures RemovedIn(refs[s := refs[s].(removed := true)]) == RemovedIn(refs) + {s}
  {
  }

  lemma RemovedMember(refs: map<nat, Ref>, s: nat)
    requires s in refs
    ensures s in RemovedIn(refs) <==> refs[s].removed
    ensures !refs[s].removed ==> RemovedIn(refs) - {s} == RemovedIn(refs)
  {
  }

  /** No two open inodes share a sector, and each caches the header of a live file. */
  ghost predicate OpensOk(files: Files, opens: seq<Inode>)
    reads opens
  {
    && SectorsDistinct(opens)
    && forall i :: i in opens ==> i.sector in files && i.data == files[i.sector] && i.openCnt >= 1
  }

  lemma OpenFacts(files: Files, opens: seq<Inode>, i: Inode)
    requires OpensOk(files, opens) && i in opens
    ensures i.sector in files && i.data == files[i.sector] && i.openCnt >= 1
    ensures i.sector in RefsOf(opens) && RefsOf(opens)[i.sector] == RefAt(i)
  {
    RefsMeaning(opens);
  }

  /** What is known of the list apart from the count of one inode in it. */
  ghost predicate OpensBut(files: Files, opens: seq<Inode>, refs: map<nat, Ref>, inode: Inode)
    reads (set i: Inode | i in opens && i != inode), inode`data
  {
    && SectorsDistinct(opens) && inode in opens
    && (forall i :: i in opens ==> i.sector in files && i.data == files[i.sector])
    && (forall i :: i in opens && i != inode ==> i.openCnt >= 1 && i.sector in refs && refs[i.sector] == RefAt(i))
    && (forall s :: s in refs ==> exists i :: i in opens && i.sector == s)
  }

  lemma OpensApart(files: Files, opens: seq<Inode>, inode: Inode)
    requires OpensOk(files, opens) && inode in opens
    ensures OpensBut(files, opens, RefsOf(opens), inode)
  {
    RefsMeaning(opens);
  }

  /** The count of one inode has changed. */
  lemma CountChanged(files: Files, opens: seq<Inode>, refs: map<nat, Ref>, inode: Inode)
    requires OpensBut(files, opens, refs, inode) && inode.openCnt >= 1
    ensures OpensOk(files, opens) && RefsOf(opens) == refs[inode.sector := RefAt(inode)]
  {
    forall i | i in opens && i.sector == inode.sector
      ensures i == inode
    {
      SameSectorSameInode(opens, i, inode);
    }
    RefsUnique(opens, refs[inode.sector := RefAt(inode)]);
  }

  /** One inode has left the list, and its file may have gone with it. */
  lemma InodeUnlinked(files: Files, opens: seq<Inode>, refs: map<nat, Ref>, k: nat)
    requires k < |opens| && OpensBut(files, opens, refs, opens[k])
    ensures var rest := opens[..k] + opens[k + 1..];
            && OpensOk(files, rest) && OpensOk(files - {opens[k].sector}, rest)
            && RefsOf(rest) == refs - {opens[k].sector}
            && forall i :: i in rest <==> i in opens && i != opens[k]
  {
    var rest := opens[..k] + opens[k + 1..];
    forall i | i in opens && i != opens[k]
      ensures i in rest && i.sector != opens[k].sector
    {
      var j :| 0 <= j < |opens| && opens[j] == i;
      assert rest[if j < k then j else j - 1] == i;
    }
    assert forall i :: i in rest ==> i in opens;
    RefsUnique(rest, refs - {opens[k].sector});
  }

  /** A new inode at the front of the list. */
  lemma InodeLinked(files: Files, opens: seq<Inode>, inode: Inode)
    requires OpensOk(files, opens) && inode.sector in files && inode.data == files[inode.sector] && inode.openCnt >= 1
    requires forall i :: i in opens ==> i.sector != inode.sector
    ensures OpensOk(files, [inode] + opens)
    ensures inode.sector !in RefsOf(opens) && RefsOf([inode] + opens) == RefsOf(opens)[inode.sector := RefAt(inode)]
  {
    RefsMeaning(opens);
    assert ([inode] + opens)[1..] == opens;
  }

  lemma RefsCounted(files: Files, opens: seq<Inode>)
    requires OpensOk(files, opens)
    ensures Counted(RefsOf(opens)) && forall s :: s in RefsOf(opens) ==> s in files
  {
    RefsMeaning(opens);
  }

  lemma OpensAfterAdd(files: Files, opens: seq<Inode>, s: nat, h: InodeDisk)
    requires OpensOk(files, opens) && s !in files
    ensures OpensOk(files[s := h], opens)
  {
  }

  function ZeroSector(): Sector {
    seq(512, _ => 0)
  }

  /** What inode_create() leaves on the device. */
  ghost predicate Created(d: seq<Sector>, e: seq<Sector>, sector: nat, h: InodeDisk)
    requires Fits(h, |d|) && sector < |d|
  {
    && |e| == |d| && !(h.start <= sector < h.start + SectorsFor(h.length))
    && DecodeInode(e[sector]) == h
    && (forall k :: h.start <= k < h.start + SectorsFor(h.length) ==> e[k] == ZeroSector())
    && (forall k :: 0 <= k < |d| && k != sector && !(h.start <= k < h.start + SectorsFor(h.length)) ==> e[k] == d[k])
  }

  /** A fresh header sector is neither a system sector nor anybody else's. */
  lemma SectorAllocated(files: Files, d: seq<Sector>, bits: seq<bool>, s: nat)
    requires DeviceOk(files, d, bits) && AllAre(bits, s, 1, false)
    ensures s > ROOT_DIR_SECTOR && s < |bits| && s !in files && Unowned(files, s, 1)
    ensures DeviceOk(files, d, SetRange(bits, s, 1, true))
  {
    hide HeadersOnDisk, Exclusive;
    FreeGroupUnowned(files, bits, s, 1);
    MarksKept(files, bits, s, 1, true);
    SelfOwned(files, s);
    OwnedIsMarked(files, bits, FREE_MAP_SECTOR, FREE_MAP_SECTOR);
    OwnedIsMarked(files, bits, ROOT_DIR_SECTOR, ROOT_DIR_SECTOR);
  }

  lemma SelfOwned(files: Files, s: nat)
    requires Unowned(files, s, 1)
    ensures s !in files
  {
    if s in files {
      assert Owns(s, files[s], s);
    }
  }

  lemma {:induction false} ZeroExtent(d: seq<Sector>, start: nat, cnt: nat)
    requires start + cnt <= |d| && forall k :: start <= k < start + cnt ==> d[k] == ZeroSector()
    ensures forall p :: 0 <= p < SECTOR_SIZE * cnt ==> Extent(d, start, cnt)[p] == 0
    decreases cnt
  {
    if cnt > 0 {
      ZeroExtent(d, start, cnt - 1);
    }
  }

  /** inode_create() on a fresh header sector. */
  lemma FileCreated(files: Files, d: seq<Sector>, e: seq<Sector>, bits: seq<bool>, s: nat, h: InodeDisk)
    requires DeviceOk(files, d, bits) && s < |d| && Fits(h, |d|) && Created(d, e, s, h)
    requires Unowned(files, s, 1) && AllAre(bits, h.start, SectorsFor(h.length), false)
    ensures Unowned(files, h.start, SectorsFor(h.length))
    ensures DeviceOk(files, e, SetRange(bits, h.start, SectorsFor(h.length), true))
    ensures forall t :: t in files ==> Fits(files[t], |d|) && ExtentOf(e, files[t]) == ExtentOf(d, files[t])
    ensures forall p :: 0 <= p < h.length ==> Content(e, h)[p] == 0
  {
    hide HeadersOnDisk, Exclusive, Extent, SectorsFor;
    var cnt := SectorsFor(h.length);
    FreeGroupUnowned(files, bits, h.start, cnt);
    MarksKept(files, bits, h.start, cnt, true);
    forall t, x | t in files && x < |d| && Owns(t, files[t], x)
      ensures e[x] == d[x]
    {
      UnownedIsNotOwned(files, s, 1, t, x);
      UnownedIsNotOwned(files, h.start, cnt, t, x);
    }
    WriteUnowned(files, d, e, bits);
    assert DeviceOk(files, e, SetRange(bits, h.start, cnt, true));
    ZeroExtent(e, h.start, cnt);
  }

  /** The name has been stored in the root directory: the new file is in. */
  lemma FileEntered(files: Files, d: seq<Sector>, e: seq<Sector>, bits: seq<bool>, s: nat, h: InodeDisk)
    requires DeviceOk(files, d, bits) && Fits(files[ROOT_DIR_SECTOR], |d|) && SameOutside(d, e, files[ROOT_DIR_SECTOR])
    requires s < |d| && Fits(h, |d|) && DecodeInode(d[s]) == h
    requires AllAre(bits, s, 1, true) && AllAre(bits, h.start, SectorsFor(h.length), true)
    requires Unowned(files, s, 1) && Unowned(files, h.start, SectorsFor(h.length))
    requires !(h.start <= s < h.start + SectorsFor(h.length))
    ensures DeviceOk(files, e, bits) && DeviceOk(files[s := h], e, bits)
    ensures forall t :: t in files && t != ROOT_DIR_SECTOR ==> Fits(files[t], |d|) && ExtentOf(e, files[t]) == ExtentOf(d, files[t])
    ensures ExtentOf(e, h) == ExtentOf(d, h)
  {
    hide HeadersOnDisk, Exclusive, AllMarked, Extent, SectorsFor;
    var root, cnt := files[ROOT_DIR_SECTOR], SectorsFor(h.length);
    WriteInside(files, d, e, bits, ROOT_DIR_SECTOR);
    forall x | x == s || h.start <= x < h.start + cnt
      ensures e[x] == d[x]
    {
      UnownedIsNotOwned(files, s, 1, ROOT_DIR_SECTOR, x);
      UnownedIsNotOwned(files, h.start, cnt, ROOT_DIR_SECTOR, x);
    }
    ExtentSame(d, e, h.start, cnt);
    AddFile(files, e, bits, s, h);
  }

  /** A new file of size zero bytes with header sector s bears the given name; all else is as
      it was. */
  ghost predicate FileAdded(d0: map<Name, nat>, d1: map<Name, nat>, c0: map<nat, seq<Byte>>, c1: map<nat, seq<Byte>>,
                            s: int, name: Name, size: Offset)
  {
    s > ROOT_DIR_SECTOR && s !in c0 && d1 == d0[name := s] && c1 == c0[s := Zeros(size)]
  }

  /** filesys_create() adds the file, or changes nothing. */
  ghost predicate AddedOrSame(success: bool, d0: map<Name, nat>, d1: map<Name, nat>, c0: map<nat, seq<Byte>>, c1: map<nat, seq<Byte>>,
                          s: int, name: Name, size: Offset)
  {
    if success then FileAdded(d0, d1, c0, c1, s, name, size) else d1 == d0 && c1 == c0
  }

  /** The bytes of data that went to file s at the given offset, and nothing else changed. */
  ghost predicate Written(c0: map<nat, seq<Byte>>, c1: map<nat, seq<Byte>>, s: nat, size: int, offset: nat, memory: bool,
                          denied: bool, data: seq<Byte>, n: nat)
  {
    && s in c0 && |c0[s]| <= OFF_MAX
    && n == (if denied then 0 else Transferred(size, offset, |c0[s]|, memory))
    && n <= |data|
    && c1 == c0[s := Put(c0[s], offset, data[..n])]
  }

  /** The n bytes of file s from offset on that went to the front of a buffer. */
  ghost predicate ReadFrom(c: map<nat, seq<Byte>>, s: nat, size: int, offset: nat, memory: bool,
                           b0: seq<Byte>, b1: seq<Byte>, n: nat)
  {
    && s in c && |c[s]| <= OFF_MAX
    && n == Transferred(size, offset, |c[s]|, memory)
    && n <= |b0|
    && b1 == Put(b0, 0, Window(c[s], offset, n))
  }

  // ----- formatting -----

  /** bitmap_file_size(): whole 32-bit elements, one bit per sector. */
  function MapBytes(sectors: nat): (n: Offset)
    requires 0 < sectors < WORD_LIMIT
  {
    (sectors + 31) / 32 * 4
  }

  /** Four sectors are enough for both headers, the free map and the root directory. */
  lemma MapFits(sectors: nat)
    requires 4 <= sectors < WORD_LIMIT
    ensures 0 < SectorsFor(MapBytes(sectors)) && 3 + SectorsFor(MapBytes(sectors)) <= sectors
  {
    var e := (sectors + 31) / 32;
    assert 32 * e <= sectors + 31 && e >= 1;
    var n: int := 4 * e;
    assert MapBytes(sectors) == n && n + 511 <= OFF_MAX;
    var q := (n + 511) / 512;
    assert 512 * q <= n + 511;
  }

  /** The free map before any allocation: only the system sectors are marked. */
  lemma FreshMap(b: seq<bool>, cnt: nat)
    requires forall k :: 0 <= k < |b| ==> b[k] == (k < 2)
    requires 0 < cnt && 3 + cnt <= |b|
    ensures FirstGroup(b, 0, cnt, false) == 2
    ensures var c := SetRange(b, 2, cnt, true);
            FirstGroup(c, 0, 1, false) >= 0
  {
    assert AllAre(b, 2, cnt, false);
    FirstGroupIsLowest(b, 0, cnt, false, 2);
    var c := SetRange(b, 2, cnt, true);
    assert AllAre(c, 2 + cnt, 1, false);
    FirstGroupIsLowest(c, 0, 1, false, 2 + cnt);
  }

  /** The two system files own disjoint, marked sectors. */
  lemma FormattedDevice(d0: seq<Sector>, d1: seq<Sector>, d2: seq<Sector>, b0: seq<bool>, b1: seq<bool>, b2: seq<bool>,
                        h0: InodeDisk, h1: InodeDisk)
    requires |d0| == |d1| == |d2| == |b0| == |b1| == |b2| < WORD_LIMIT
    requires 2 <= |b0| && b0[0] && b0[1] && Fits(h0, |d0|) && Fits(h1, |d0|)
    requires Created(d0, d1, FREE_MAP_SECTOR, h0) && Created(d1, d2, ROOT_DIR_SECTOR, h1)
    requires AllAre(b0, h0.start, SectorsFor(h0.length), false) && b1 == SetRange(b0, h0.start, SectorsFor(h0.length), true)
    requires AllAre(b1, h1.start, SectorsFor(h1.length), false) && b2 == SetRange(b1, h1.start, SectorsFor(h1.length), true)
    ensures DeviceOk(map[FREE_MAP_SECTOR := h0, ROOT_DIR_SECTOR := h1], d2, b2)
    ensures forall p :: 0 <= p < h1.length ==> Content(d2, h1)[p] == 0
  {
    hide SectorsFor, Extent, SetRange;
    var files: Files := map[FREE_MAP_SECTOR := h0, ROOT_DIR_SECTOR := h1];
    forall x | Owns(FREE_MAP_SECTOR, h0, x)
      ensures 0 <= x < |b1| && b1[x]
    {
    }
    forall x | Owns(ROOT_DIR_SECTOR, h1, x)
      ensures 0 <= x < |b2| && b2[x] && (x == ROOT_DIR_SECTOR || !b1[x])
    {
    }
    TwoFiles(files, h0, h1, b0, b1, b2);
    ZeroExtent(d2, h1.start, SectorsFor(h1.length));
  }

  lemma TwoFiles(files: Files, h0: InodeDisk, h1: InodeDisk, b0: seq<bool>, b1: seq<bool>, b2: seq<bool>)
    requires files == map[FREE_MAP_SECTOR := h0, ROOT_DIR_SECTOR := h1]
    requires 2 <= |b0| == |b1| == |b2| && b0[0] && b0[1] && !InExtent(h0, FREE_MAP_SECTOR) && !InExtent(h1, ROOT_DIR_SECTOR)
    requires forall x :: InExtent(h0, x) ==> 0 <= x < |b0| && !b0[x]
    requires forall x :: Owns(FREE_MAP_SECTOR, h0, x) ==> 0 <= x < |b1| && b1[x]
    requires forall x :: Owns(ROOT_DIR_SECTOR, h1, x) ==> 0 <= x < |b2| && b2[x] && (x == ROOT_DIR_SECTOR || !b1[x])
    requires forall x :: 0 <= x < |b1| && b1[x] ==> b2[x]
    ensures Exclusive(files) && AllMarked(files, b2)
  {
    forall x | Owns(FREE_MAP_SECTOR, h0, x)
      ensures !Owns(ROOT_DIR_SECTOR, h1, x)
    {
      assert b1[x];
      assert InExtent(h0, x) || x == FREE_MAP_SECTOR;
    }
  }

  lemma {:induction false} ZeroEntries(content: seq<Byte>, n: nat)
    requires ENTRY_SIZE * n <= |content| && forall p :: 0 <= p < |content| ==> content[p] == 0
    ensures forall k :: 0 <= k < n ==> !EntriesUpTo(content, n)[k].inUse
    decreases n
  {
    if n > 0 {
      ZeroEntries(content, n - 1);
      var b := content[ENTRY_SIZE * (n - 1)..ENTRY_SIZE * n];
      assert b[19] == content[ENTRY_SIZE * (n - 1) + 19];
    }
  }

  /** A root directory of 320 zero bytes has 16 free entries and no names. */
  lemma FormattedNames(files: Files, d: seq<Sector>, es: seq<DirEntry>)
    requires ROOT_DIR_SECTOR in files && FREE_MAP_SECTOR in files && files.Keys == {FREE_MAP_SECTOR, ROOT_DIR_SECTOR}
    requires Fits(files[FREE_MAP_SECTOR], |d|) && Fits(files[ROOT_DIR_SECTOR], |d|)
    requires files[ROOT_DIR_SECTOR].length == 16 * ENTRY_SIZE && es == DirEntries(d, files[ROOT_DIR_SECTOR])
    requires forall p :: 0 <= p < files[ROOT_DIR_SECTOR].length ==> Content(d, files[ROOT_DIR_SECTOR])[p] == 0
    ensures |es| == 16 && Names(es) == map[] && NamesOk(files, es, RemovedIn(RefsOf([])))
    ensures OpensOk(files, []) && RefsOf([]) == map[]
    ensures ContentsMap(files, d) == map[]
  {
    hide Content, Names, EntriesUpTo;
    ZeroEntries(Content(d, files[ROOT_DIR_SECTOR]), 16);
    NoNames(es);
  }

  lemma {:induction false} NoNames(es: seq<DirEntry>)
    requires forall k :: 0 <= k < |es| ==> !es[k].inUse
    ensures Names(es) == map[]
  {
    if es != [] {
      NoNames(es[..|es| - 1]);
    }
  }

  /** Which of the allocations and free-map writes inside one call succeed: the in-memory
      inode of the root directory, the directory, the header buffer, the bounce buffer of the
      directory write, the writes of the free map for the header sector and for the extent,
      the in-memory inode of the named file, and the file handle. */
  datatype Resources = Resources(inode: bool, dir: bool, header: bool, bounce: bool, sectorMap: bool, extentMap: bool,
                                 target: bool, file: bool)

  /** Whether the root directory can be opened. */
  predicate RootAvailable(refs: map<nat, Ref>, r: Resources) {
    (ROOT_DIR_SECTOR in refs || r.inode) && r.dir
  }

  /** No opener of the root directory has denied writes to it. */
  predicate RootWritable(refs: map<nat, Ref>) {
    ROOT_DIR_SECTOR in refs ==> refs[ROOT_DIR_SECTOR].denied == 0
  }

  /** All files but the root directory have the same extents on both devices. */
  ghost predicate SameExtents(files: Files, d: seq<Sector>, e: seq<Sector>) {
    && |e| == |d|
    && forall t :: t in files && t != ROOT_DIR_SECTOR ==> Fits(files[t], |d|) && ExtentOf(e, files[t]) == ExtentOf(d, files[t])
  }

  lemma SameExtentsOf(files: Files, d: seq<Sector>, e: seq<Sector>)
    requires |e| == |d|
    requires forall t :: t in files && t != ROOT_DIR_SECTOR ==> Fits(files[t], |d|) && ExtentOf(e, files[t]) == ExtentOf(d, files[t])
    ensures SameExtents(files, d, e)
  {
  }

  lemma SameInBoth(files: Files, d: seq<Sector>, e: seq<Sector>, f: seq<Sector>)
    requires |d| == |e| == |f|
    requires forall t :: t in files && t != ROOT_DIR_SECTOR ==> Fits(files[t], |d|) && ExtentOf(e, files[t]) == ExtentOf(d, files[t])
    requires forall t :: t in files && t != ROOT_DIR_SECTOR ==> Fits(files[t], |e|) && ExtentOf(f, files[t]) == ExtentOf(e, files[t])
    ensures SameExtents(files, d, f)
  {
  }

  /** What the device holds: the bytes of every file but the free map and the root directory. */
  ghost function ContentsMap(files: Files, d: seq<Sector>): map<nat, seq<Byte>> {
    map s | s in files && s > ROOT_DIR_SECTOR && Fits(files[s], |d|) :: Content(d, files[s])
  }

  lemma FreshIsAbsent(files: Files, d: seq<Sector>, s: nat)
    requires s !in files
    ensures s !in ContentsMap(files, d)
  {
  }

  /** Equal extents mean equal contents. */
  lemma ContentsKept(files: Files, d: seq<Sector>, e: seq<Sector>)
    requires SameExtents(files, d, e)
    ensures ContentsMap(files, e) == ContentsMap(files, d)
  {
    hide ExtentOf, Fits;
  }

  lemma ContentsAdded(files: Files, d: seq<Sector>, e: seq<Sector>, s: nat, h: InodeDisk, bytes: seq<Byte>)
    requires SameExtents(files, d, e) && s !in files && s > ROOT_DIR_SECTOR
    requires Fits(h, |e|) && Content(e, h) == bytes
    ensures ContentsMap(files[s := h], e) == ContentsMap(files, d)[s := bytes]
  {
    hide ExtentOf, Fits;
    var l, r := ContentsMap(files[s := h], e), ContentsMap(files, d)[s := bytes];
    assert l.Keys == r.Keys;
  }

  lemma ContentsDropped(files: Files, d: seq<Sector>, s: nat)
    ensures ContentsMap(files - {s}, d) == ContentsMap(files, d) - {s}
  {
    hide ExtentOf, Fits;
  }

  lemma ContentsWritten(files: Files, d: seq<Sector>, e: seq<Sector>, s: nat, bytes: seq<Byte>)
    requires |e| == |d| && s in files && s > ROOT_DIR_SECTOR && Fits(files[s], |d|) && Content(e, files[s]) == bytes
    requires forall t :: t in files && t != s ==> Fits(files[t], |d|) && ExtentOf(e, files[t]) == ExtentOf(d, files[t])
    ensures ContentsMap(files, e) == ContentsMap(files, d)[s := bytes]
  {
    hide ExtentOf, Fits;
    var l, r := ContentsMap(files, e), ContentsMap(files, d)[s := bytes];
    assert l.Keys == r.Keys;
  }

  lemma SameEntries(d: seq<Sector>, e: seq<Sector>, h: InodeDisk)
    requires |e| == |d| && Fits(h, |d|) && ExtentOf(e, h) == ExtentOf(d, h)
    ensures DirEntries(e, h) == DirEntries(d, h)
  {
  }

  lemma MarkedSelf(b: seq<bool>, s: nat)
    requires s < |b|
    ensures AllAre(SetRange(b, s, 1, true), s, 1, true)
  {
  }

  lemma MarkedBit(b: seq<bool>, s: nat)
    requires AllAre(b, s, 1, true)
    ensures s < |b| && b[s]
  {
  }

  /** Marking the extent leaves the header sector marked. */
  lemma MarkedGroups(b: seq<bool>, c: seq<bool>, s: nat, h: InodeDisk)
    requires AllAre(b, s, 1, true) && Fits(h, |b|) && c == SetRange(b, h.start, SectorsFor(h.length), true)
    ensures |c| == |b| && AllAre(c, s, 1, true) && AllAre(c, h.start, SectorsFor(h.length), true)
  {
    hide SectorsFor, SetRange;
  }

  lemma CreatedFacts(d: seq<Sector>, e: seq<Sector>, s: nat, h: InodeDisk)
    requires s < |d| && Fits(h, |d|) && Created(d, e, s, h)
    ensures |e| == |d| && DecodeInode(e[s]) == h && !(h.start <= s < h.start + SectorsFor(h.length))
  {
  }

  lemma NewFileContent(d: seq<Sector>, e: seq<Sector>, h: InodeDisk)
    requires |e| == |d| && Fits(h, |d|) && ExtentOf(e, h) == ExtentOf(d, h)
    requires forall p :: 0 <= p < h.length ==> Content(d, h)[p] == 0
    ensures Content(e, h) == Zeros(h.length)
  {
    hide ExtentOf;
    var zeros: seq<Byte> := Zeros(h.length);
    assert Content(d, h) == zeros;
  }

  lemma NameEntered(files: Files, es: seq<DirEntry>, fs: seq<DirEntry>, removed: set<nat>, name: Name, s: nat, h: InodeDisk)
    requires NamesOk(files, es, removed) && Added(es, fs, name, s, true)
    requires s !in files && ROOT_DIR_SECTOR < s < WORD_LIMIT
    ensures NamesOk(files[s := h], fs, removed) && Names(fs) == Names(es)[name := s] && |fs| == |es|
  {
    var k: nat :| IsFirstFree(es, k) && fs == es[k := DirEntry(s, name, true)];
    NameAdded(files, es, removed, k, name, s, h);
  }

  lemma AddFailed(es: seq<DirEntry>, fs: seq<DirEntry>, name: Name, s: nat)
    requires Added(es, fs, name, s, false)
    ensures fs == es
  {
  }

  lemma SectorReturned(files: Files, d: seq<Sector>, bits: seq<bool>, s: nat)
    requires DeviceOk(files, d, bits) && s < |bits| && Unowned(files, s, 1)
    ensures DeviceOk(files, d, SetRange(bits, s, 1, false))
  {
    MarksKept(files, bits, s, 1, false);
  }

  /** What the first match of a name means for the map and for the file. */
  lemma MatchMeaning(files: Files, es: seq<DirEntry>, removed: set<nat>, name: Name)
    requires NamesOk(files, es, removed)
    ensures var k := FirstMatch(es, name, 0);
            && (k < |es| <==> name in Names(es))
            && (k < |es| ==> Names(es)[name] == es[k].sector && es[k].sector in files
                             && es[k].sector > ROOT_DIR_SECTOR && es[k].sector !in removed)
  {
    hide Names;
    var k := FirstMatch(es, name, 0);
    NoMatchIsUnused(es, name);
    UnusedMeansAbsent(es, name);
    if k < |es| {
      EntryHasName(es, k);
    }
  }

  /** When filesys_create() gets as far as storing the name: resources, a free sector for the
      header, room for the extent, and a legal new name that fits in the directory. */
  ghost predicate CanCreate(bits: seq<bool>, es: seq<DirEntry>, writable: bool, name: Name, size: Offset, r: Resources) {
    && r.sectorMap && r.header && r.extentMap
    && var s := FirstGroup(bits, 0, 1, false);
       && s >= 0
       && FirstGroup(SetRange(bits, s, 1, true), 0, SectorsFor(size), false) >= 0
       && CanAdd(es, name, r.bounce && writable)
  }

  /** There are cnt free sectors in a row without s. */
  ghost predicate FreeWithout(bits: seq<bool>, s: nat, start: nat, cnt: nat) {
    start + cnt <= |bits| && forall i :: start <= i < start + cnt ==> !bits[i] && i != s
  }

  ghost predicate IsFirstFreeSector(bits: seq<bool>, s: nat) {
    s < |bits| && !bits[s] && forall i :: 0 <= i < s ==> bits[i]
  }

  /** A sector is free for the header, the first one, and without it there are cnt in a row. */
  ghost predicate HasRoom(bits: seq<bool>, cnt: nat) {
    exists s: nat, start: nat :: IsFirstFreeSector(bits, s) && FreeWithout(bits, s, start, cnt)
  }

  /** Then, and only then, both allocations of filesys_create() find their sectors. */
  lemma RoomExact(bits: seq<bool>, cnt: nat)
    ensures HasRoom(bits, cnt) <==>
              var s := FirstGroup(bits, 0, 1, false);
              s >= 0 && FirstGroup(SetRange(bits, s, 1, true), 0, cnt, false) >= 0
  {
    hide FirstGroup, SetRange;
    var s := FirstGroup(bits, 0, 1, false);
    if t: nat, start: nat :| IsFirstFreeSector(bits, t) && FreeWithout(bits, t, start, cnt) {
      assert AllAre(bits, t, 1, false);
      FirstGroupIsLowest(bits, 0, 1, false, t);
      assert !bits[s];
      assert AllAre(SetRange(bits, s, 1, true), start, cnt, false);
      FirstGroupIsLowest(SetRange(bits, s, 1, true), 0, cnt, false, start);
    }
    if s >= 0 && FirstGroup(SetRange(bits, s, 1, true), 0, cnt, false) >= 0 {
      var start := FirstGroup(SetRange(bits, s, 1, true), 0, cnt, false);
      assert IsFirstFreeSector(bits, s) by {
        forall i | 0 <= i < s
          ensures bits[i]
        {
          NotFreeBelow(bits, i);
        }
      }
      assert FreeWithout(bits, s, start, cnt);
    }
  }

  lemma NotFreeBelow(bits: seq<bool>, i: nat)
    requires i < FirstGroup(bits, 0, 1, false) < |bits|
    ensures bits[i]
  {
    hide FirstGroup;
    if !bits[i] {
      assert AllAre(bits, i, 1, false);
      FirstGroupIsLowest(bits, 0, 1, false, i);
    }
  }

  /** The free map after inode_create() has, perhaps, allocated an extent for size bytes. */
  ghost function WithExtent(bits: seq<bool>, size: Offset, r: Resources): (b: seq<bool>)
    ensures |b| == |bits|
  {
    var start := FirstGroup(bits, 0, SectorsFor(size), false);
    if r.header && r.extentMap && start >= 0 then SetRange(bits, start, SectorsFor(size), true) else bits
  }

  /** The free map after filesys_create(), once the root directory is open: a failure gives back
      the header's sector, but not the extent. */
  ghost function MapAfter(bits: seq<bool>, size: Offset, r: Resources, success: bool): (b: seq<bool>)
    ensures |b| == |bits|
  {
    var s := FirstGroup(bits, 0, 1, false);
    if !r.sectorMap || s < 0 then bits
    else
      var b := WithExtent(SetRange(bits, s, 1, true), size, r);
      if success then b else SetRange(b, s, 1, false)
  }

  /** filesys_create() of size bytes gets as far as to allocate sectors for the extent. */
  ghost predicate ExtentAllocated(bits: seq<bool>, size: Offset, r: Resources) {
    && r.sectorMap && r.header && r.extentMap && size > 0
    && var s := FirstGroup(bits, 0, 1, false);
       s >= 0 && FirstGroup(SetRange(bits, s, 1, true), 0, SectorsFor(size), false) >= 0
  }

  /** Exactly then a failure leaves sectors marked for good: those of the extent. */
  lemma FailureLeaks(bits: seq<bool>, size: Offset, r: Resources)
    ensures MapAfter(bits, size, r, false) == bits <==> !ExtentAllocated(bits, size, r)
    ensures ExtentAllocated(bits, size, r) ==>
              var start := FirstGroup(SetRange(bits, FirstGroup(bits, 0, 1, false), 1, true), 0, SectorsFor(size), false);
              AllAre(bits, start, SectorsFor(size), false) && MapAfter(bits, size, r, false) == SetRange(bits, start, SectorsFor(size), true)
  {
    hide FirstGroup, SectorsFor, SetRange;
    var s := FirstGroup(bits, 0, 1, false);
    NoBytesNoSectors(size);
    if r.sectorMap && s >= 0 {
      var b := SetRange(bits, s, 1, true);
      var start := FirstGroup(b, 0, SectorsFor(size), false);
      SetRangeUndo(bits, s, 1, false);
      if r.header && r.extentMap && start >= 0 {
        HeaderReturned(bits, s, start, SectorsFor(size));
      }
    }
  }

  /** Giving back the header's sector leaves just the extent marked. */
  lemma HeaderReturned(bits: seq<bool>, s: nat, start: nat, cnt: nat)
    requires AllAre(bits, s, 1, false) && AllAre(SetRange(bits, s, 1, true), start, cnt, false)
    ensures AllAre(bits, start, cnt, false)
    ensures SetRange(SetRange(SetRange(bits, s, 1, true), start, cnt, true), s, 1, false) == SetRange(bits, start, cnt, true)
    ensures SetRange(bits, start, cnt, true) == bits <==> cnt == 0
  {
    hide SetRange;
    var b := SetRange(bits, s, 1, true);
    assert b[s];
    assert SetRange(SetRange(b, start, cnt, true), s, 1, false) == SetRange(bits, start, cnt, true);
    if cnt == 0 {
      assert SetRange(bits, start, cnt, true) == bits;
    } else {
      assert !bits[start] && SetRange(bits, start, cnt, true)[start];
    }
  }

  lemma NoBytesNoSectors(size: Offset)
    ensures SectorsFor(size) == 0 <==> size == 0
  {
  }

  /** On a device with three free sectors, creating a file of one byte under a name that exists
      fails and leaves a sector marked. */
  lemma ExistingNameLeaks()
    ensures var bits := [true, true, true, false, false, false];
            var es := [DirEntry(2, [97], true), DirEntry(0, [], false)];
            var r := Resources(true, true, true, true, true, true, true, true);
            !CanCreate(bits, es, true, [97], 1, r) && ExtentAllocated(bits, 1, r) && MapAfter(bits, 1, r, false) != bits
  {
    var bits := [true, true, true, false, false, false];
    var es := [DirEntry(2, [97], true), DirEntry(0, [], false)];
    var r := Resources(true, true, true, true, true, true, true, true);
    assert es[0].inUse && es[0].name == [97] && !Unused(es, [97]);
    FirstGroupIsLowest(bits, 0, 1, false, 3);
    assert !bits[FirstGroup(bits, 0, 1, false)];
    assert FirstGroup(bits, 0, 1, false) == 3;
    var b := SetRange(bits, 3, 1, true);
    assert AllAre(b, 4, 1, false);
    FirstGroupIsLowest(b, 0, 1, false, 4);
    assert SectorsFor(1) == 1;
    FailureLeaks(bits, 1, r);
  }

  lemma DirectoryFacts(files: Files, es: seq<DirEntry>, removed: set<nat>, name: Name)
    requires NamesOk(files, es, removed)
    ensures (Unused(es, name) <==> name !in Names(es)) && (HasFreeSlot(es) <==> |Names(es)| < |es|)
  {
    hide Names, Unused, HasFreeSlot;
    UnusedMeansAbsent(es, name);
    FreeSlots(es);
  }

  class FileSystem {
    const disk: array<Sector>
    const freeMap: Bitmap
    var openInodes: seq<Inode>
    ghost var files: Files

    ghost predicate DeviceValid()
      reads this`files, disk, freeMap.bits
    {
      DeviceOk(files, disk[..], freeMap.bits[..])
    }

    /** The entries of the root directory. */
    ghost function Root(): seq<DirEntry>
      reads this`files, disk
    {
      if ROOT_DIR_SECTOR in files && Fits(files[ROOT_DIR_SECTOR], disk.Length)
      then DirEntries(disk[..], files[ROOT_DIR_SECTOR]) else []
    }

    /** The names of the root directory. */
    ghost function Directory(): map<Name, nat>
      reads this`files, disk
    {
      Names(Root())
    }

    /** The bytes of every other file but the free map, by header sector. */
    ghost function Contents(): map<nat, seq<Byte>>
      reads this`files, disk
    {
      ContentsMap(files, disk[..])
    }

    /** The open inodes, by header sector. */
    ghost function Refs(): map<nat, Ref>
      reads this`openInodes, openInodes
    {
      RefsOf(openInodes)
    }

    /** What holds between any two calls. */
    ghost predicate Valid()
      reads this, disk, freeMap.bits, openInodes
    {
      && DeviceValid()
      && OpensOk(files, openInodes)
      && NamesOk(files, Root(), RemovedIn(Refs()))
      && |Root()| == 16
    }

    /** The file in sector s has lost its name: it is gone, unless it is open, in which case it
        is marked and lives on. */
    ghost predicate Unlinked(contents: map<nat, seq<Byte>>, refs: map<nat, Ref>, s: nat)
      reads this, disk, openInodes
    {
      if s in refs then Contents() == contents && Refs() == refs[s := refs[s].(removed := true)]
      else Contents() == contents - {s} && Refs() == refs
    }

    // ----- facts drawn from the invariant -----

    lemma Parts()
      requires Valid()
      ensures DeviceValid() && OpensOk(files, openInodes) && NamesOk(files, Root(), RemovedIn(Refs())) && |Root()| == 16
    {
    }

    lemma Assemble()
      requires DeviceValid() && OpensOk(files, openInodes) && NamesOk(files, Root(), RemovedIn(Refs())) && |Root()| == 16
      ensures Valid()
    {
    }

    lemma HeaderFacts()
      requires DeviceValid()
      ensures FREE_MAP_SECTOR in files && ROOT_DIR_SECTOR in files && disk.Length == freeMap.bits.Length < WORD_LIMIT
      ensures forall s :: s in files ==> s < disk.Length && Fits(files[s], disk.Length) && DecodeInode(disk[s]) == files[s]
    {
    }

    /** The root directory is a file of its own, and never removed. */
    lemma RootFacts()
      requires Valid()
      ensures ROOT_DIR_SECTOR in files && Fits(files[ROOT_DIR_SECTOR], disk.Length)
      ensures ROOT_DIR_SECTOR !in RemovedIn(Refs()) && Counted(Refs())
    {
      hide RefsOf, DirEntries;
      RemovedFacts(files, Root(), RemovedIn(Refs()));
      RefsCounted(files, openInodes);
    }

    lemma InodeFacts(i: Inode)
      requires Valid() && i in openInodes
      ensures i.sector in files && i.data == files[i.sector] && Fits(i.data, disk.Length) && i.openCnt >= 1
      ensures i.sector in Refs() && Refs()[i.sector] == RefAt(i)
    {
      hide RefsOf, DirEntries, NamesOk;
      OpenFacts(files, openInodes, i);
    }

    lemma HandlesCounted()
      requires Valid()
      ensures forall i :: i in openInodes ==> i.sector in Refs()
    {
      hide DeviceOk, NamesOk, RefsOf, DirEntries;
      forall i | i in openInodes
        ensures i.sector in Refs()
      {
        InodeFacts(i);
      }
    }

    /** A name leads to a live file that is not removed. */
    lemma NameFacts(name: Name)
      requires Valid()
      ensures ROOT_DIR_SECTOR in files && Fits(files[ROOT_DIR_SECTOR], disk.Length)
      ensures Root() == DirEntries(disk[..], files[ROOT_DIR_SECTOR])
      ensures var es := Root();
              var k := FirstMatch(es, name, 0);
              && (k < |es| <==> name in Names(es))
              && (k < |es| ==> Names(es)[name] == es[k].sector && es[k].sector in files && es[k].sector > ROOT_DIR_SECTOR
                               && es[k].sector !in RemovedIn(Refs()))
    {
      hide DeviceOk, NamesOk, DirEntries, OpensOk, Names, RefsOf;
      HeaderFacts();
      MatchMeaning(files, Root(), RemovedIn(Refs()), name);
    }

    // ----- free-map.c -----

    /** free_map_allocate(): the first sector of the group, or -1.  mapWritten says whether
        the free map could be written to its own file; if not, the bits are cleared again. */
    method FreeMapAllocate(cnt: nat, mapWritten: bool) returns (sector: int)
      modifies freeMap.bits
      ensures sector == if mapWritten then FirstGroup(old(freeMap.bits[..]), 0, cnt, false) else -1
      ensures sector == -1 ==> freeMap.bits[..] == old(freeMap.bits[..])
      ensures sector >= 0 ==> AllAre(old(freeMap.bits[..]), sector, cnt, false)
      ensures sector >= 0 ==> freeMap.bits[..] == SetRange(old(freeMap.bits[..]), sector, cnt, true)
    {
      hide SetRange, FirstGroup;
      sector := freeMap.ScanAndFlip(cnt, false);
      if sector != -1 && !mapWritten {
        freeMap.SetMultiple(sector, cnt, false);
        SetRangeUndo(old(freeMap.bits[..]), sector, cnt, false);
        sector := -1;
      }
    }

    /** free_map_release(); its assertion is the precondition. */
    method FreeMapRelease(sector: nat, cnt: nat)
      requires AllAre(freeMap.bits[..], sector, cnt, true)
      modifies freeMap.bits
      ensures freeMap.bits[..] == SetRange(old(freeMap.bits[..]), sector, cnt, false)
    {
      freeMap.SetMultiple(sector, cnt, false);
    }

    // ----- inode.c -----

    /** inode_create(): header to the given sector, zeros to a fresh extent. */
    method InodeCreate(sector: nat, length: Offset, memory: bool, mapWritten: bool)
      returns (success: bool, ghost h: InodeDisk)
      requires sector < disk.Length == freeMap.bits.Length < WORD_LIMIT && freeMap.bits[sector]
      modifies disk, freeMap.bits
      ensures h.length == length
      ensures success <==> memory && mapWritten && FirstGroup(old(freeMap.bits[..]), 0, SectorsFor(length), false) >= 0
      ensures !success ==> disk[..] == old(disk[..]) && freeMap.bits[..] == old(freeMap.bits[..])
      ensures success ==> h.start == FirstGroup(old(freeMap.bits[..]), 0, SectorsFor(length), false)
      ensures success ==> Fits(h, disk.Length) && AllAre(old(freeMap.bits[..]), h.start, SectorsFor(length), false)
                          && freeMap.bits[..] == SetRange(old(freeMap.bits[..]), h.start, SectorsFor(length), true)
                          && Created(old(disk[..]), disk[..], sector, h)
    {
      hide SectorsFor, SetRange, FirstGroup, DecodeInode, EncodeInode;
      success, h := false, InodeDisk(0, length);
      if memory {
        var sectors := SectorsFor(length);
        var start := FreeMapAllocate(sectors, mapWritten);
        if start >= 0 {
          var header := InodeDisk(start, length);
          h := header;
          DecodeEncodeInode(header);
          disk[sector] := EncodeInode(header);
          assert !(start <= sector < start + sectors);
          var zeros := ZeroSector();
          ghost var d := disk[..];
          for i := 0 to sectors
            invariant freeMap.bits[..] == SetRange(old(freeMap.bits[..]), start, sectors, true)
            invariant forall k :: 0 <= k < disk.Length ==>
                        disk[k] == if start <= k < start + i then zeros else d[k]
          {
            disk[start + i] := zeros;
          }
          success := true;
        }
      }
    }

    /** inode_open(); memory says whether malloc() succeeds. */
    method InodeOpen(sector: nat, memory: bool) returns (inode: Inode?)
      requires Valid() && sector in files
      modifies this`openInodes, openInodes
      ensures Valid()
      ensures inode == null <==> sector !in old(Refs()) && !memory
      ensures inode == null ==> Refs() == old(Refs()) && openInodes == old(openInodes)
      ensures inode != null ==> inode in openInodes && inode.sector == sector && Refs() == Acquired(old(Refs()), sector)
      ensures inode != null ==> if sector in old(Refs()) then inode in old(openInodes) else fresh(inode)
      ensures forall i :: i in old(openInodes) ==> i in openInodes
      ensures forall i :: i in openInodes ==> i == inode || i in old(openInodes)
    {
      hide DeviceOk, NamesOk, OpensOk, DirEntries, DecodeInode, RefsOf, RemovedIn, OpensBut;
      HeaderFacts();
      RefsOfOpen(openInodes);
      RemovedAfter(Refs(), sector);
      inode := null;
      var k := 0;
      while k < |openInodes|
        invariant 0 <= k <= |openInodes|
        invariant forall j :: 0 <= j < k ==> openInodes[j].sector != sector
      {
        if openInodes[k].sector == sector {
          inode := openInodes[k];
          InodeFacts(inode);
          OpensApart(files, openInodes, inode);
          inode.openCnt := inode.openCnt + 1;
          CountChanged(files, openInodes, old(Refs()), inode);
          return;
        }
        k := k + 1;
      }
      if memory {
        inode := new Inode(sector, DecodeInode(disk[sector]));
        InodeLinked(files, openInodes, inode);
        openInodes := [inode] + openInodes;
      }
    }

    lemma RefsOfOpen(opens: seq<Inode>)
      requires OpensOk(files, opens)
      ensures forall s :: s in RefsOf(opens) <==> exists i :: i in opens && i.sector == s
    {
      RefsMeaning(opens);
    }

    /** inode_close().  The last closer of a removed file returns its sectors; both release
        assertions hold there. */
    method InodeClose(inode: Inode)
      requires Valid() && inode in openInodes
      modifies this, freeMap.bits, inode
      ensures Valid() && inode.sector in old(Refs())
      ensures Refs() == Dropped(old(Refs()), inode.sector)
      ensures var gone := old(Refs())[inode.sector].removed && inode.sector !in Refs();
              && files == (if gone then old(files) - {inode.sector} else old(files))
              && inode.sector in old(files) && inode.sector < freeMap.bits.Length && Fits(old(files)[inode.sector], freeMap.bits.Length)
              && freeMap.bits[..] == if gone then Released(old(freeMap.bits[..]), inode.sector, old(files)[inode.sector]) else old(freeMap.bits[..])
      ensures forall i :: i in openInodes <==> i in old(openInodes) && (i == inode ==> inode.sector in Refs())
    {
      hide Valid, DeviceValid, NamesOk, OpensOk, Released, DirEntries, Fits, RemovedIn, Refs;
      Parts();
      HeaderFacts();
      RootFacts();
      InodeFacts(inode);
      RemovedAfter(Refs(), inode.sector);
      RemovedMember(Refs(), inode.sector);
      RemovedFacts(files, Root(), RemovedIn(Refs()));
      ghost var refs := Refs();
      var last := DropHandle(inode);
      if last && inode.removed {
        RemovedDropped(files, Root(), RemovedIn(refs), inode.sector);
        ReleaseSectors(inode.sector, inode.data);
      }
      Assemble();
    }

    /** Counting one opener fewer; the last one takes the inode off the list. */
    method DropHandle(inode: Inode) returns (last: bool)
      requires OpensOk(files, openInodes) && inode in openInodes
      modifies this`openInodes, inode`openCnt
      ensures last <==> old(inode.openCnt) == 1
      ensures OpensOk(files, openInodes) && (last ==> OpensOk(files - {inode.sector}, openInodes))
      ensures inode.sector in old(Refs()) && Refs() == Dropped(old(Refs()), inode.sector)
      ensures forall i :: i in openInodes <==> i in old(openInodes) && (i == inode ==> !last)
    {
      hide OpensOk, OpensBut, RefsOf;
      OpenFacts(files, openInodes, inode);
      OpensApart(files, openInodes, inode);
      inode.openCnt := inode.openCnt - 1;
      last := inode.openCnt == 0;
      if last {
        var k :| 0 <= k < |openInodes| && openInodes[k] == inode;
        InodeUnlinked(files, openInodes, old(Refs()), k);
        openInodes := openInodes[..k] + openInodes[k + 1..];
      } else {
        CountChanged(files, openInodes, old(Refs()), inode);
      }
    }

    /** The two free_map_release() calls for a removed file. */
    method ReleaseSectors(s: nat, h: InodeDisk)
      requires DeviceValid() && s in files && files[s] == h && s > ROOT_DIR_SECTOR
      modifies this`files, freeMap.bits
      ensures DeviceValid() && files == old(files) - {s}
      ensures s < freeMap.bits.Length && Fits(h, freeMap.bits.Length)
      ensures freeMap.bits[..] == Released(old(freeMap.bits[..]), s, h)
    {
      hide DeviceOk, SectorsFor, SetRange, AllAre, Fits;
      DropFile(files, disk[..], freeMap.bits[..], s);
      FreeMapRelease(s, 1);
      FitsFacts(h, freeMap.bits.Length);
      FreeMapRelease(h.start, SectorsFor(h.length));
      files := files - {s};
    }

    // ----- filesys.c -----

    /** The header sector the next file gets. */
    ghost function NewSector(): int
      reads freeMap.bits
    {
      FirstGroup(freeMap.bits[..], 0, 1, false)
    }

    /** dir_open_root(), which closes the inode again if there is no memory for the directory. */
    method OpenRoot(r: Resources) returns (root: Inode?)
      requires Valid()
      modifies this, freeMap.bits, openInodes
      ensures Valid() && files == old(files) && freeMap.bits[..] == old(freeMap.bits[..])
      ensures root == null <==> !RootAvailable(old(Refs()), r)
      ensures root == null ==> Refs() == old(Refs())
      ensures root != null ==> root in openInodes && root.sector == ROOT_DIR_SECTOR && Refs() == Acquired(old(Refs()), ROOT_DIR_SECTOR)
      ensures root != null ==> if ROOT_DIR_SECTOR in old(Refs()) then root in old(openInodes) else fresh(root)
      ensures forall i :: i in old(openInodes) ==> i in openInodes
      ensures forall i :: i in openInodes ==> i == root || i in old(openInodes)
    {
      hide Valid, Refs, RemovedIn, Acquired, Dropped;
      RootFacts();
      HandlesCounted();
      AcquiredDropped(Refs(), ROOT_DIR_SECTOR, ROOT_DIR_SECTOR);
      root := InodeOpen(ROOT_DIR_SECTOR, r.inode);
      if root != null && !r.dir {
        CloseRoot(root, old(Refs()));
        root := null;
      }
    }

    /** dir_close() of the root directory undoes what opening it did. */
    method CloseRoot(root: Inode, ghost refs: map<nat, Ref>)
      requires Valid() && root in openInodes && root.sector == ROOT_DIR_SECTOR
      requires ROOT_DIR_SECTOR in Refs() && Dropped(Refs(), ROOT_DIR_SECTOR) == refs
      modifies this, freeMap.bits, root
      ensures Valid() && files == old(files) && freeMap.bits[..] == old(freeMap.bits[..])
      ensures Refs() == refs
      ensures forall i :: i in openInodes <==> i in old(openInodes) && (i == root ==> ROOT_DIR_SECTOR in refs)
    {
      hide Valid, Refs, Dropped, Released;
      RootFacts();
      RemovedMember(Refs(), ROOT_DIR_SECTOR);
      InodeClose(root);
    }

    /** inode_create() and dir_add() for a new file whose header goes to sector s. */
    method StoreFile(root: Inode, name: Name, s: nat, initialSize: Offset, r: Resources) returns (success: bool)
      requires Valid() && root in openInodes && root.sector == ROOT_DIR_SECTOR
      requires s > ROOT_DIR_SECTOR && s !in files && Unowned(files, s, 1) && AllAre(freeMap.bits[..], s, 1, true)
      modifies disk, freeMap.bits, this`files
      ensures Valid() && AllAre(freeMap.bits[..], s, 1, true)
      ensures success <==> r.header && r.extentMap && FirstGroup(old(freeMap.bits[..]), 0, SectorsFor(initialSize), false) >= 0
                           && CanAdd(old(Root()), name, r.bounce && root.denyWriteCnt == 0)
      ensures success ==> Directory() == old(Directory())[name := s]
                          && Contents() == old(Contents())[s := Zeros(initialSize)]
      ensures !success ==> files == old(files) && Root() == old(Root()) && Contents() == old(Contents())
      ensures freeMap.bits[..] == WithExtent(old(freeMap.bits[..]), initialSize, r)
    {
      hide DeviceOk, NamesOk, OpensOk, DirEntries, SetRange, FirstGroup, SectorsFor, Fits, Created, CanAdd, Added, Unowned,
        AllAre, RemovedIn, RefsOf, Names, Content, ExtentOf, SameOutside, DecodeInode, SameExtents, ContentsMap;
      HeaderFacts();
      OpenFacts(files, openInodes, root);
      ghost var d0, es, root0, bits0 := disk[..], Root(), files[ROOT_DIR_SECTOR], freeMap.bits[..];
      MarkedBit(bits0, s);
      ghost var h;
      success, h := InodeCreate(s, initialSize, r.header, r.extentMap);
      if success {
        ghost var d1, bits := disk[..], freeMap.bits[..];
        FileCreated(files, d0, d1, bits0, s, h);
        SameEntries(d0, d1, root0);
        MarkedGroups(bits0, bits, s, h);
        CreatedFacts(d0, d1, s, h);
        success := DirAdd(disk, root, name, s, r.bounce);
        ghost var d2 := disk[..];
        FileEntered(files, d1, d2, bits, s, h);
        SameInBoth(files, d0, d1, d2);
        if success {
          NewFileContent(d1, d2, h);
          ContentsAdded(files, d0, d2, s, h, Zeros(initialSize));
          NameEntered(files, es, Root(), RemovedIn(Refs()), name, s, h);
          OpensAfterAdd(files, openInodes, s, h);
          files := files[s := h];
        } else {
          AddFailed(es, Root(), name, s);
          ContentsKept(files, d0, d2);
        }
      }
    }

    /** The steps of filesys_create() between opening and closing the root directory. */
    method CreateEntry(root: Inode, name: Name, initialSize: Offset, r: Resources) returns (success: bool)
      requires Valid() && root in openInodes && root.sector == ROOT_DIR_SECTOR
      modifies disk, freeMap.bits, this`files
      ensures Valid()
      ensures success <==> old(CanCreate(freeMap.bits[..], Root(), root.denyWriteCnt == 0, name, initialSize, r))
      ensures success ==> FileAdded(old(Directory()), Directory(), old(Contents()), Contents(), old(NewSector()), name, initialSize)
      ensures !success ==> Root() == old(Root()) && Contents() == old(Contents())
      ensures freeMap.bits[..] == MapAfter(old(freeMap.bits[..]), initialSize, r, success)
    {
      hide DeviceOk, NamesOk, OpensOk, DirEntries, SetRange, FirstGroup, SectorsFor, Fits, CanAdd, Unowned,
        AllAre, RemovedIn, RefsOf, Names, ContentsMap;
      HeaderFacts();
      ghost var d0, b0 := disk[..], freeMap.bits[..];
      var inodeSector := 0;
      var s := FreeMapAllocate(1, r.sectorMap);
      success := s != -1;
      if success {
        SectorAllocated(files, d0, b0, s);
        FreshIsAbsent(files, d0, s);
        MarkedSelf(b0, s);
        inodeSector := s;
        success := StoreFile(root, name, inodeSector, initialSize, r);
      }
      if !success && inodeSector != 0 {
        SectorReturned(files, disk[..], freeMap.bits[..], inodeSector);
        FreeMapRelease(inodeSector, 1);
      }
    }

    /** The resources suffice, nobody denies writes to the root directory, the name is legal and
        new, there are fewer than 16 names, and there is room on the device. */
    ghost predicate CanCreateNow(name: Name, size: Offset, r: Resources)
      reads this, disk, freeMap.bits, openInodes
    {
      && (ROOT_DIR_SECTOR in Refs() || r.inode) && r.dir && r.sectorMap && r.header && r.extentMap && r.bounce
      && (ROOT_DIR_SECTOR in Refs() ==> Refs()[ROOT_DIR_SECTOR].denied == 0)
      && 0 < |name| <= 14 && name !in Directory() && |Directory()| < 16
      && HasRoom(freeMap.bits[..], SectorsFor(size))
    }

    lemma CanCreateExact(name: Name, size: Offset, r: Resources)
      requires Valid()
      ensures CanCreateNow(name, size, r) <==>
                RootAvailable(Refs(), r) && CanCreate(freeMap.bits[..], Root(), RootWritable(Refs()), name, size, r)
    {
      hide DeviceOk, OpensOk, DirEntries, RefsOf, SectorsFor, FirstGroup, SetRange, HasRoom, Names, Unused, HasFreeSlot, RemovedIn, WellFormed;
      DirectoryFacts(files, Root(), RemovedIn(Refs()), name);
      RoomExact(freeMap.bits[..], SectorsFor(size));
    }

    /** filesys_create() */
    method FilesysCreate(name: Name, initialSize: Offset, r: Resources) returns (success: bool)
      requires Valid()
      modifies this, disk, freeMap.bits, openInodes
      ensures Valid() && Refs() == old(Refs())
      ensures success <==> old(CanCreateNow(name, initialSize, r))
      ensures AddedOrSame(success, old(Directory()), Directory(), old(Contents()), Contents(), old(NewSector()), name, initialSize)
      ensures freeMap.bits[..] ==
                if RootAvailable(old(Refs()), r) then MapAfter(old(freeMap.bits[..]), initialSize, r, success) else old(freeMap.bits[..])
      ensures forall i :: i in old(openInodes) ==> i in openInodes
    {
      hide Valid, Refs, Root, Contents, CanCreate, CanCreateNow, Names, Acquired, Dropped, FileAdded;
      RootFacts();
      HandlesCounted();
      CanCreateExact(name, initialSize, r);
      AcquiredDropped(Refs(), ROOT_DIR_SECTOR, ROOT_DIR_SECTOR);
      AcquiredFlags(Refs(), ROOT_DIR_SECTOR);
      var root := OpenRoot(r);
      if root == null {
        return false;
      }
      InodeFacts(root);
      success := CreateEntry(root, name, initialSize, r);
      CloseRoot(root, old(Refs()));
    }

    /** dir_lookup(): opens the inode of a named file. */
    method DirLookup(root: Inode, name: Name, memory: bool) returns (inode: Inode?)
      requires Valid() && root in openInodes && root.sector == ROOT_DIR_SECTOR
      modifies this`openInodes, openInodes
      ensures Valid()
      ensures inode != null <==> name in Directory() && (Directory()[name] in old(Refs()) || memory)
      ensures inode == null ==> Refs() == old(Refs()) && openInodes == old(openInodes)
      ensures inode != null ==> inode in openInodes && inode.sector == Directory()[name] > ROOT_DIR_SECTOR
                                && inode.sector !in RemovedIn(old(Refs())) && Refs() == Acquired(old(Refs()), inode.sector)
      ensures inode != null ==> if inode.sector in old(Refs()) then inode in old(openInodes) else fresh(inode)
      ensures forall i :: i in old(openInodes) ==> i in openInodes
      ensures forall i :: i in openInodes ==> i == inode || i in old(openInodes)
    {
      hide Valid, Refs, DirEntries, Names, DecodeEntry, RemovedIn;
      NameFacts(name);
      InodeFacts(root);
      inode := null;
      var found, ep, ofs := Lookup(disk, root, name);
      if found {
        var e := DecodeEntry(ep[..]);
        inode := InodeOpen(e.sector, memory);
      }
    }

    /** file_open(): without memory for the handle the inode is closed again. */
    method FileOpen(inode: Inode, memory: bool, ghost refs: map<nat, Ref>) returns (file: Inode?)
      requires Valid() && inode in openInodes && inode.sector !in RemovedIn(refs)
      requires Counted(refs) && Refs() == Acquired(refs, inode.sector)
      modifies this, freeMap.bits, inode
      ensures Valid() && files == old(files) && freeMap.bits[..] == old(freeMap.bits[..])
      ensures file == if memory then inode else null
      ensures Refs() == if memory then old(Refs()) else refs
      ensures forall i :: i in openInodes <==> i in old(openInodes) && (i == inode && !memory ==> inode.sector in refs)
    {
      hide Valid, Refs, Acquired, Dropped, RemovedIn, Released;
      if memory {
        return inode;
      }
      AcquiredDropped(refs, inode.sector, inode.sector);
      RemovedAfter(refs, inode.sector);
      RemovedMember(Refs(), inode.sector);
      InodeClose(inode);
      return null;
    }

    /** filesys_open() */
    method FilesysOpen(name: Name, r: Resources) returns (inode: Inode?)
      requires Valid()
      modifies this, freeMap.bits, openInodes
      ensures Valid() && files == old(files) && freeMap.bits[..] == old(freeMap.bits[..])
      ensures inode != null <==> RootAvailable(old(Refs()), r) && name in Directory()
                                 && (Directory()[name] in old(Refs()) || r.target) && r.file
      ensures inode != null ==> inode in openInodes && inode.sector == Directory()[name] && Refs() == Acquired(old(Refs()), inode.sector)
      ensures inode == null ==> Refs() == old(Refs())
      ensures forall i :: i in old(openInodes) ==> i in openInodes
    {
      hide Valid, Refs, Root, Names, Acquired, Dropped, RemovedIn, Counted;
      RootFacts();
      HandlesCounted();
      ghost var refs := Refs();
      AcquiredDropped(refs, ROOT_DIR_SECTOR, ROOT_DIR_SECTOR);
      RemovedAfter(refs, ROOT_DIR_SECTOR);
      var root := OpenRoot(r);
      if root == null {
        return null;
      }
      AcquiredElse(refs, ROOT_DIR_SECTOR);
      assert forall k :: 0 <= k < |openInodes| ==> openInodes[k] in old(openInodes) || fresh(openInodes[k]);
      inode := DirLookup(root, name, r.target);
      if inode == null {
        CloseRoot(root, refs);
      } else {
        AcquiredDropped(refs, ROOT_DIR_SECTOR, inode.sector);
        AcquiredElse(refs, inode.sector);
        CloseRoot(root, Acquired(refs, inode.sector));
        inode := FileOpen(inode, r.file, refs);
      }
    }

    /** The middle of dir_remove(): erase entry k and, if that worked, mark the inode removed. */
    method EraseEntry(root: Inode, inode: Inode, ep: array<Byte>, ofs: nat, ghost k: nat, memory: bool) returns (success: bool)
      requires Valid() && root in openInodes && root.sector == ROOT_DIR_SECTOR && inode in openInodes
      requires k < |Root()| && Root()[k].inUse && inode.sector == Root()[k].sector && ofs == ENTRY_SIZE * k
      requires ep.Length == ENTRY_SIZE && !DecodeEntry(ep[..]).inUse && ep as object != disk
      requires inode.sector > ROOT_DIR_SECTOR
      modifies disk, inode
      ensures Valid() && Contents() == old(Contents()) && inode.sector in old(Refs())
      ensures success <==> memory && old(root.denyWriteCnt) == 0
      ensures success ==> Directory() == old(Directory()) - {old(Root())[k].name}
                          && Refs() == old(Refs())[inode.sector := old(Refs())[inode.sector].(removed := true)]
      ensures !success ==> Directory() == old(Directory()) && Refs() == old(Refs())
    {
      hide DeviceOk, NamesOk, OpensOk, DirEntries, RefsOf, RemovedIn, OpensBut, ContentsMap, Names, DecodeEntry, ExtentOf,
        SameOutside, Put, Transferred, Fits;
      HeaderFacts();
      InodeFacts(root);
      InodeFacts(inode);
      OpensApart(files, openInodes, inode);
      ghost var d, es, refs, h := disk[..], Root(), Refs(), files[ROOT_DIR_SECTOR];
      EntryTransfer(d, h, k, memory);
      var n := WriteAt(disk, root, ep, ENTRY_SIZE, ofs, memory);
      assert ep[..] == ep[..ENTRY_SIZE] && ep[..][..n] == ep[..n];
      EntryWritten(d, disk[..], h, k, ep[..], n);
      WriteInside(files, d, disk[..], freeMap.bits[..], ROOT_DIR_SECTOR);
      SameExtentsOf(files, d, disk[..]);
      ContentsKept(files, d, disk[..]);
      if n != ENTRY_SIZE {
        return false;
      }
      NameErased(files, es, RemovedIn(refs), k, DecodeEntry(ep[..]));
      RemovedMarked(refs, inode.sector);
      inode.removed := true;
      CountChanged(files, openInodes, refs, inode);
      return true;
    }

    /** dir_remove() */
    method DirRemove(root: Inode, name: Name, r: Resources) returns (success: bool)
      requires Valid() && root in openInodes && root.sector == ROOT_DIR_SECTOR
      modifies this, disk, freeMap.bits, openInodes
      ensures Valid()
      ensures success <==> name in old(Directory()) && (old(Directory())[name] in old(Refs()) || r.target)
                           && r.bounce && old(root.denyWriteCnt) == 0
      ensures success ==> Directory() == old(Directory()) - {name} && Unlinked(old(Contents()), old(Refs()), old(Directory())[name])
      ensures !success ==> Directory() == old(Directory()) && Contents() == old(Contents()) && Refs() == old(Refs())
      ensures forall i :: i in old(openInodes) ==> i in openInodes
    {
      hide Valid, Refs, DirEntries, Names, DecodeEntry, RemovedIn, ContentsMap, Acquired, Dropped, Released;
      NameFacts(name);
      InodeFacts(root);
      RootFacts();
      HandlesCounted();
      ghost var refs, es, k := Refs(), Root(), FirstMatch(Root(), name, 0);
      var found, ep, ofs := Lookup(disk, root, name);
      if !found {
        return false;
      }
      var e := DecodeEntry(ep[..]);
      ghost var s := e.sector;
      RemovedAfter(refs, s);
      var inode := InodeOpen(e.sector, r.target);
      if inode == null {
        return false;
      }
      AcquiredFlags(refs, s);
      AcquiredElse(refs, s);
      InodeFacts(root);
      ErasedEntry(ep[..]);
      ep[19] := 0;
      success := EraseEntry(root, inode, ep, ofs, k, r.bounce);
      CloseTarget(inode, refs, success);
    }

    /** The end of dir_remove(): close the inode that it opened. */
    method CloseTarget(inode: Inode, ghost refs: map<nat, Ref>, ghost erased: bool)
      requires Valid() && inode in openInodes && Counted(refs) && inode.sector !in RemovedIn(refs)
      requires var a := Acquired(refs, inode.sector);
               inode.sector in a && Refs() == if erased then a[inode.sector := a[inode.sector].(removed := true)] else a
      modifies this, freeMap.bits, inode
      ensures Valid() && Directory() == old(Directory())
      ensures erased ==> Unlinked(old(Contents()), refs, inode.sector)
      ensures !erased ==> Contents() == old(Contents()) && Refs() == refs
      ensures forall i :: i in openInodes <==> i in old(openInodes) && (i == inode ==> inode.sector in refs)
    {
      hide Valid, Refs, DirEntries, Names, ContentsMap, Released;
      var s := inode.sector;
      ClosedTarget(refs, s);
      RootFacts();
      InodeFacts(inode);
      ContentsDropped(files, disk[..], s);
      InodeClose(inode);
    }

    /** filesys_remove() */
    method FilesysRemove(name: Name, r: Resources) returns (success: bool)
      requires Valid()
      modifies this, disk, freeMap.bits, openInodes
      ensures Valid()
      ensures success <==> RootAvailable(old(Refs()), r) && name in old(Directory())
                           && (old(Directory())[name] in old(Refs()) || r.target) && r.bounce && RootWritable(old(Refs()))
      ensures success ==> Directory() == old(Directory()) - {name} && Unlinked(old(Contents()), old(Refs()), old(Directory())[name])
      ensures !success ==> Directory() == old(Directory()) && Contents() == old(Contents()) && Refs() == old(Refs())
      ensures forall i :: i in old(openInodes) ==> i in openInodes
    {
      hide Valid, Refs, Root, Contents, Names, Acquired, Dropped;
      RootFacts();
      HandlesCounted();
      AcquiredFlags(Refs(), ROOT_DIR_SECTOR);
      var root := OpenRoot(r);
      if root == null {
        return false;
      }
      assert forall k :: 0 <= k < |openInodes| ==> openInodes[k] in old(openInodes) || fresh(openInodes[k]);
      InodeFacts(root);
      success := RemoveAndClose(root, name, r, old(Refs()));
    }

    /** filesys_remove() once the root directory is open. */
    method RemoveAndClose(root: Inode, name: Name, r: Resources, ghost refs: map<nat, Ref>) returns (success: bool)
      requires Valid() && root in openInodes && root.sector == ROOT_DIR_SECTOR && Counted(refs) && Refs() == Acquired(refs, ROOT_DIR_SECTOR)
      modifies this, disk, freeMap.bits, openInodes
      ensures Valid()
      ensures success <==> name in old(Directory()) && (old(Directory())[name] in refs || r.target) && r.bounce && old(root.denyWriteCnt) == 0
      ensures success ==> Directory() == old(Directory()) - {name} && Unlinked(old(Contents()), refs, old(Directory())[name])
      ensures !success ==> Directory() == old(Directory()) && Contents() == old(Contents()) && Refs() == refs
      ensures forall i :: i in old(openInodes) && i != root ==> i in openInodes
      ensures ROOT_DIR_SECTOR in refs ==> root in openInodes
    {
      hide Valid, Refs, Root, Contents, Names, Acquired, Dropped;
      AcquiredDropped(refs, ROOT_DIR_SECTOR, ROOT_DIR_SECTOR);
      AcquiredElse(refs, ROOT_DIR_SECTOR);
      NameFacts(name);
      ghost var s := if name in Directory() then Directory()[name] else 0;
      success := DirRemove(root, name, r);
      MarkedDropped(refs, s);
      CloseRoot(root, if success && s in refs then refs[s := refs[s].(removed := true)] else refs);
    }

    // ----- reading and writing through a handle -----

    /** file_read_at() */
    method FileReadAt(inode: Inode, buffer: array<Byte>, size: int, offset: nat, memory: bool) returns (bytesRead: nat)
      requires Valid() && inode in openInodes && inode.sector > ROOT_DIR_SECTOR
      requires size <= buffer.Length && buffer as object != disk
      modifies buffer
      ensures ReadFrom(Contents(), inode.sector, size, offset, memory, old(buffer[..]), buffer[..], bytesRead)
    {
      hide Valid, Content, Transferred, Put, Window, Fits, SectorsFor;
      InodeFacts(inode);
      FitsFacts(inode.data, disk.Length);
      bytesRead := ReadAt(disk, inode, buffer, size, offset, memory);
    }

    /** file_write_at(): the file's bytes are spliced; every other file, the directory and all
        handles stay as they were. */
    method FileWriteAt(inode: Inode, buffer: array<Byte>, size: int, offset: nat, memory: bool) returns (bytesWritten: nat)
      requires Valid() && inode in openInodes && inode.sector > ROOT_DIR_SECTOR
      requires size <= buffer.Length && buffer as object != disk
      modifies disk
      ensures Valid()
      ensures Written(old(Contents()), Contents(), inode.sector, size, offset, memory, inode.denyWriteCnt != 0, buffer[..], bytesWritten)
      ensures Root() == old(Root())
    {
      hide DeviceOk, OpensOk, NamesOk, DirEntries, RefsOf, Content, Transferred, Put, Fits, SectorsFor, SameOutside, ExtentOf;
      InodeFacts(inode);
      HeaderFacts();
      FitsFacts(inode.data, disk.Length);
      ghost var d, h, s := disk[..], inode.data, inode.sector;
      bytesWritten := WriteAt(disk, inode, buffer, size, offset, memory);
      WriteInside(files, d, disk[..], freeMap.bits[..], s);
      assert buffer[..][..bytesWritten] == buffer[..bytesWritten];
      ContentAfterWrite(d, disk[..], h, offset, buffer[..bytesWritten]);
      SameEntries(d, disk[..], files[ROOT_DIR_SECTOR]);
      ContentsWritten(files, d, disk[..], s, Content(disk[..], h));
    }

    /** file_close(): the last closer of a removed file takes its bytes along. */
    method FileClose(inode: Inode)
      requires Valid() && inode in openInodes && inode.sector > ROOT_DIR_SECTOR
      modifies this, freeMap.bits, inode
      ensures Valid() && Directory() == old(Directory())
      ensures inode.sector in old(Refs()) && Refs() == Dropped(old(Refs()), inode.sector)
      ensures Contents() == if old(Refs())[inode.sector] == Ref(1, true, old(inode.denyWriteCnt)) then old(Contents()) - {inode.sector}
                            else old(Contents())
      ensures forall i :: i in openInodes <==> i in old(openInodes) && (i == inode ==> inode.sector in Refs())
    {
      hide Valid, Refs, DirEntries, Names, ContentsMap, Released;
      RootFacts();
      InodeFacts(inode);
      ContentsDropped(files, disk[..], inode.sector);
      InodeClose(inode);
    }

    // ----- formatting -----

    /** do_format(): an empty root directory with room for 16 entries.  The free map marks the
        two system sectors before anything is allocated, and its own file stays open. */
    method DoFormat()
      requires openInodes == [] && 4 <= disk.Length == freeMap.bits.Length < WORD_LIMIT
      requires forall k :: 0 <= k < freeMap.bits.Length ==> freeMap.bits[k] == (k <= ROOT_DIR_SECTOR)
      modifies this, disk, freeMap.bits
      ensures Valid()
      ensures Directory() == map[] && |Root()| == 16 && Contents() == map[]
      ensures Refs() == map[FREE_MAP_SECTOR := Ref(1, false, 0)]
    {
      hide Valid, DeviceOk, OpensOk, NamesOk, DirEntries, RefsOf, RemovedIn, Content, SectorsFor, FirstGroup, SetRange, AllAre,
        Created, Fits, MapBytes, Names, ContentsMap;
      ghost var d0, b0 := disk[..], freeMap.bits[..];
      MapFits(disk.Length);
      FreshMap(b0, SectorsFor(MapBytes(disk.Length)));
      var ok, h0 := InodeCreate(FREE_MAP_SECTOR, MapBytes(disk.Length), true, true);
      ghost var d1, b1 := disk[..], freeMap.bits[..];
      var ok', h1 := InodeCreate(ROOT_DIR_SECTOR, 16 * ENTRY_SIZE, true, true);
      FormattedDevice(d0, d1, disk[..], b0, b1, freeMap.bits[..], h0, h1);
      files := map[FREE_MAP_SECTOR := h0, ROOT_DIR_SECTOR := h1];
      FormattedNames(files, disk[..], Root());
      Assemble();
      var f := InodeOpen(FREE_MAP_SECTOR, true);
    }

    /** filesys_init() with formatting, on a device with arbitrary contents. */
    constructor Format(sectors: nat)
      requires 4 <= sectors < WORD_LIMIT
      ensures Valid() && fresh(disk) && fresh(freeMap.bits) && disk.Length == sectors
      ensures Directory() == map[] && |Root()| == 16 && Contents() == map[]
      ensures Refs() == map[FREE_MAP_SECTOR := Ref(1, false, 0)]
    {
      disk := new Sector[sectors];
      freeMap := new Bitmap(sectors);
      openInodes := [];
      files := map[];
      new;
      freeMap.SetMultiple(FREE_MAP_SECTOR, 1, true);
      freeMap.SetMultiple(ROOT_DIR_SECTOR, 1, true);
      assert forall k :: 0 <= k < freeMap.bits.Length ==> freeMap.bits[k] == freeMap.bits[..][k];
      DoFormat();
    }
  }
}
