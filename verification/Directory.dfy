/** Directories (filesys/directory.c): a flat file of 20-byte entries, refined to a finite
    map from names to header sectors. */
module Directories {
  import opened Bytes
  import opened Inodes

  const NAME_MAX: int := 14
  const ENTRY_SIZE: int := 20

  datatype DirEntry = DirEntry(sector: nat, name: Name, inUse: bool)

  // ----- the layout of one entry: 4 bytes sector, 15 bytes name, 1 byte in_use -----

  function DecodeEntry(b: seq<Byte>): (e: DirEntry)
    requires |b| == ENTRY_SIZE
  {
    DirEntry(Word(b[0..4]), CString(b[4..19]), b[19] != 0)
  }

  lemma ErasedEntry(b: seq<Byte>)
    requires |b| == ENTRY_SIZE
    ensures !DecodeEntry(b[19 := 0]).inUse
  {
  }

  lemma DecodeEntryFields(b: seq<Byte>, sector: int, name: Name, rest: seq<Byte>, flag: Byte)
    requires 0 <= sector < WORD_LIMIT && |name| <= NAME_MAX
    requires b == Le32(sector) + (name + [0] + rest) + [flag] && |b| == ENTRY_SIZE
    ensures DecodeEntry(b) == DirEntry(sector, name, flag != 0)
  {
    WordOfLe32(sector);
    CStringOf(name, rest);
    assert b[0..4] == Le32(sector);
    assert b[4..19] == name + [0] + rest;
  }

  // ----- a directory as a sequence of entries -----

  /** The first n entries stored in the file content. */
  ghost function EntriesUpTo(content: seq<Byte>, n: nat): (es: seq<DirEntry>)
    requires ENTRY_SIZE * n <= |content|
    ensures |es| == n
  {
    if n == 0 then []
    else EntriesUpTo(content, n - 1) + [DecodeEntry(content[ENTRY_SIZE * (n - 1)..ENTRY_SIZE * n])]
  }

  ghost function Entries(content: seq<Byte>): (es: seq<DirEntry>)
    ensures |es| == |content| / ENTRY_SIZE
  {
    EntriesUpTo(content, |content| / ENTRY_SIZE)
  }

  lemma {:induction false} EntriesIndex(content: seq<Byte>, n: nat, k: nat)
    requires k < n && ENTRY_SIZE * n <= |content|
    ensures EntriesUpTo(content, n)[k] == DecodeEntry(content[ENTRY_SIZE * k..ENTRY_SIZE * k + ENTRY_SIZE])
    decreases n
  {
    if k < n - 1 {
      EntriesIndex(content, n - 1, k);
    }
  }

  /** A write of one entry, though it may straddle sectors, changes that entry only. */
  lemma EntriesAfterPut(content: seq<Byte>, k: nat, data: seq<Byte>)
    requires k < |content| / ENTRY_SIZE && |data| == ENTRY_SIZE
    ensures ENTRY_SIZE * k + ENTRY_SIZE <= |content|
    ensures Entries(Put(content, ENTRY_SIZE * k, data)) == Entries(content)[k := DecodeEntry(data)]
  {
    hide EntriesUpTo, DecodeEntry, Splice;
    var n, c := |content| / ENTRY_SIZE, Put(content, ENTRY_SIZE * k, data);
    var l, r := EntriesUpTo(c, n), EntriesUpTo(content, n)[k := DecodeEntry(data)];
    forall j | 0 <= j < n
      ensures l[j] == r[j]
    {
      EntryAfterSplice(content, n, ENTRY_SIZE * k, data, j);
    }
    assert l == r;
  }

  lemma EntryAfterSplice(content: seq<Byte>, n: nat, ofs: nat, data: seq<Byte>, j: nat)
    requires j < n && ENTRY_SIZE * n <= |content| && ofs + |data| <= |content|
    requires |data| == ENTRY_SIZE || ENTRY_SIZE * j + ENTRY_SIZE <= ofs
    requires ofs % ENTRY_SIZE == 0
    ensures ofs == ENTRY_SIZE * j ==> EntriesUpTo(Splice(content, ofs, data), n)[j] == DecodeEntry(data)
    ensures ofs != ENTRY_SIZE * j ==> EntriesUpTo(Splice(content, ofs, data), n)[j] == EntriesUpTo(content, n)[j]
  {
    hide EntriesUpTo, DecodeEntry, Splice;
    EntriesIndex(Splice(content, ofs, data), n, j);
    EntriesIndex(content, n, j);
    SpliceSlice(content, ofs, data, ENTRY_SIZE * j, ENTRY_SIZE * j + ENTRY_SIZE);
  }

  /** A write behind the last whole entry changes none. */
  lemma EntriesAfterTail(content: seq<Byte>, data: seq<Byte>)
    requires |data| > 0 ==> ENTRY_SIZE * (|content| / ENTRY_SIZE) + |data| <= |content|
    ensures Entries(Put(content, ENTRY_SIZE * (|content| / ENTRY_SIZE), data)) == Entries(content)
  {
    hide EntriesUpTo, DecodeEntry, Splice;
    if |data| > 0 {
      var n := |content| / ENTRY_SIZE;
      var l, r := EntriesUpTo(Put(content, ENTRY_SIZE * n, data), n), EntriesUpTo(content, n);
      forall j | 0 <= j < n
        ensures l[j] == r[j]
      {
        EntryAfterSplice(content, n, ENTRY_SIZE * n, data, j);
      }
      assert l == r;
    }
  }

  // ----- a directory as a map -----

  ghost predicate SameInUseName(es: seq<DirEntry>, j: nat, k: nat)
    requires j < |es| && k < |es|
  {
    es[j].inUse && es[k].inUse && es[j].name == es[k].name
  }

  /** At most one entry in use per name, and every name in use is a legal one. */
  ghost predicate WellFormed(es: seq<DirEntry>) {
    && (forall j, k :: 0 <= j < |es| && 0 <= k < |es| && SameInUseName(es, j, k) ==> j == k)
    && (forall k :: 0 <= k < |es| && es[k].inUse ==> 0 < |es[k].name| <= NAME_MAX && es[k].sector < WORD_LIMIT)
  }

  /** The map a directory stands for. */
  ghost function Names(es: seq<DirEntry>): map<Name, nat> {
    if es == [] then map[]
    else
      var last := es[|es| - 1];
      var m := Names(es[..|es| - 1]);
      if last.inUse then m[last.name := last.sector] else m
  }

  lemma {:induction false} NameHasEntry(es: seq<DirEntry>, name: Name)
    requires name in Names(es)
    ensures exists k :: 0 <= k < |es| && es[k].inUse && es[k].name == name && es[k].sector == Names(es)[name]
  {
    var last, init := es[|es| - 1], es[..|es| - 1];
    if last.inUse && last.name == name {
      assert es[|es| - 1].sector == Names(es)[name];
    } else {
      NameHasEntry(init, name);
      var k :| 0 <= k < |init| && init[k].inUse && init[k].name == name && init[k].sector == Names(init)[name];
      assert es[k] == init[k];
    }
  }

  lemma {:induction false} EntryHasName(es: seq<DirEntry>, k: nat)
    requires WellFormed(es) && k < |es| && es[k].inUse
    ensures es[k].name in Names(es) && Names(es)[es[k].name] == es[k].sector
    decreases |es|
  {
    if k < |es| - 1 {
      var init := es[..|es| - 1];
      WellFormedPrefix(es);
      assert init[k] == es[k];
      EntryHasName(init, k);
      assert !SameInUseName(es, k, |es| - 1);
    }
  }

  lemma WellFormedPrefix(es: seq<DirEntry>)
    requires WellFormed(es) && |es| > 0
    ensures WellFormed(es[..|es| - 1])
  {
    var init := es[..|es| - 1];
    forall j, k | 0 <= j < |init| && 0 <= k < |init| && SameInUseName(init, j, k)
      ensures j == k
    {
      assert SameInUseName(es, j, k);
    }
  }

  ghost predicate Unused(es: seq<DirEntry>, name: Name) {
    forall k :: 0 <= k < |es| && es[k].inUse ==> es[k].name != name
  }

  lemma UnusedMeansAbsent(es: seq<DirEntry>, name: Name)
    requires WellFormed(es)
    ensures Unused(es, name) <==> name !in Names(es)
  {
    if name in Names(es) {
      NameHasEntry(es, name);
    }
    forall k | 0 <= k < |es| && es[k].inUse
      ensures es[k].name in Names(es)
    {
      EntryHasName(es, k);
    }
  }

  /** Filling a free slot adds one name to the map. */
  lemma NamesAfterAdd(es: seq<DirEntry>, k: nat, e: DirEntry)
    requires WellFormed(es) && k < |es| && !es[k].inUse
    requires e.inUse && 0 < |e.name| <= NAME_MAX && e.sector < WORD_LIMIT && Unused(es, e.name)
    ensures WellFormed(es[k := e]) && Names(es[k := e]) == Names(es)[e.name := e.sector]
  {
    var fs := es[k := e];
    forall i, j | 0 <= i < |fs| && 0 <= j < |fs| && SameInUseName(fs, i, j)
      ensures i == j
    {
      assert i != k && j != k ==> SameInUseName(es, i, j);
    }
    var l, r := Names(fs), Names(es)[e.name := e.sector];
    forall n | n in l
      ensures n in r && r[n] == l[n]
    {
      NameHasEntry(fs, n);
      var j :| 0 <= j < |fs| && fs[j].inUse && fs[j].name == n && fs[j].sector == l[n];
      if j != k { EntryHasName(es, j); }
    }
    forall n | n in r
      ensures n in l
    {
      if n == e.name {
        EntryHasName(fs, k);
      } else {
        NameHasEntry(es, n);
        var j :| 0 <= j < |es| && es[j].inUse && es[j].name == n && es[j].sector == Names(es)[n];
        EntryHasName(fs, j);
      }
    }
  }

  /** Clearing in_use removes exactly that name. */
  lemma NamesAfterErase(es: seq<DirEntry>, k: nat, e: DirEntry)
    requires WellFormed(es) && k < |es| && es[k].inUse && !e.inUse
    ensures WellFormed(es[k := e]) && Names(es[k := e]) == Names(es) - {es[k].name}
  {
    var fs := es[k := e];
    forall i, j | 0 <= i < |fs| && 0 <= j < |fs| && SameInUseName(fs, i, j)
      ensures i == j
    {
      assert SameInUseName(es, i, j);
    }
    var l, r := Names(fs), Names(es) - {es[k].name};
    forall n | n in l
      ensures n in r && r[n] == l[n]
    {
      NameHasEntry(fs, n);
      var j :| 0 <= j < |fs| && fs[j].inUse && fs[j].name == n && fs[j].sector == l[n];
      EntryHasName(es, j);
      assert SameInUseName(es, j, k) ==> j == k;
    }
    forall n | n in r
      ensures n in l
    {
      NameHasEntry(es, n);
      var j :| 0 <= j < |es| && es[j].inUse && es[j].name == n && es[j].sector == Names(es)[n];
      EntryHasName(fs, j);
    }
  }

  // ----- searching -----

  predicate Matches(e: DirEntry, name: Name) {
    e.inUse && e.name == name
  }

  /** What dir_remove() and dir_lookup() look for: the first entry in use with that name. */
  ghost function FirstMatch(es: seq<DirEntry>, name: Name, k: nat): (j: nat)
    requires k <= |es|
    ensures k <= j <= |es|
    ensures j < |es| ==> Matches(es[j], name)
    ensures forall i :: k <= i < j ==> !Matches(es[i], name)
    decreases |es| - k
  {
    if k == |es| || Matches(es[k], name) then k else FirstMatch(es, name, k + 1)
  }

  /** What dir_add() looks for: the first free slot. */
  ghost function FirstFree(es: seq<DirEntry>, k: nat): (j: nat)
    requires k <= |es|
    ensures k <= j <= |es|
    ensures j < |es| ==> !es[j].inUse
    ensures forall i :: k <= i < j ==> es[i].inUse
    decreases |es| - k
  {
    if k == |es| || !es[k].inUse then k else FirstFree(es, k + 1)
  }

  ghost function FirstInUse(es: seq<DirEntry>, k: nat): (j: nat)
    requires k <= |es|
    ensures k <= j <= |es|
    ensures j < |es| ==> es[j].inUse
    ensures forall i :: k <= i < j ==> !es[i].inUse
    decreases |es| - k
  {
    if k == |es| || es[k].inUse then k else FirstInUse(es, k + 1)
  }

  /** The directory stored in the file with header h. */
  ghost function DirEntries(d: seq<Sector>, h: InodeDisk): (es: seq<DirEntry>)
    requires Fits(h, |d|)
  {
    Entries(Content(d, h))
  }

  /** Reading one whole entry at index k succeeds exactly below the entry count. */
  lemma ReadEntry(d: seq<Sector>, h: InodeDisk, k: nat, e: seq<Byte>, f: seq<Byte>)
    requires Fits(h, |d|) && |e| == |f| == ENTRY_SIZE && k <= |DirEntries(d, h)|
    requires var n := Transferred(ENTRY_SIZE, ENTRY_SIZE * k, h.length, true);
             (n > 0 ==> ENTRY_SIZE * k + n <= h.length) && f == Put(e, 0, Window(Content(d, h), ENTRY_SIZE * k, n))
    ensures Transferred(ENTRY_SIZE, ENTRY_SIZE * k, h.length, true) == ENTRY_SIZE <==> k < |DirEntries(d, h)|
    ensures k < |DirEntries(d, h)| ==> DecodeEntry(f) == DirEntries(d, h)[k]
    ensures k < |DirEntries(d, h)| ==> ENTRY_SIZE * k + ENTRY_SIZE <= h.length
    ensures k < |DirEntries(d, h)| ==> f == Content(d, h)[ENTRY_SIZE * k..ENTRY_SIZE * k + ENTRY_SIZE]
  {
    hide Content, EntriesUpTo, DecodeEntry, Splice;
    var c := Content(d, h);
    if k < |DirEntries(d, h)| {
      EntriesIndex(c, |c| / ENTRY_SIZE, k);
      SpliceWhole(e, Window(c, ENTRY_SIZE * k, ENTRY_SIZE));
    }
  }

  /** lookup(): ep holds the entry and ofs its byte offset when the name is found. */
  method Lookup(disk: array<Sector>, dir: Inode, name: Name)
    returns (found: bool, ep: array<Byte>, ofs: nat)
    requires Fits(dir.data, disk.Length)
    ensures fresh(ep) && ep.Length == ENTRY_SIZE
    ensures var es := DirEntries(disk[..], dir.data);
            var k := FirstMatch(es, name, 0);
            && (found <==> k < |es|)
            && (found ==> ofs == ENTRY_SIZE * k && ofs + ENTRY_SIZE <= dir.data.length
                          && DecodeEntry(ep[..]) == es[k]
                          && ep[..] == Content(disk[..], dir.data)[ofs..ofs + ENTRY_SIZE])
  {
    hide DirEntries, Entries, Content, Transferred, Available, Fits, DecodeEntry, Put, Window, SectorsFor, Extent;
    ghost var es := DirEntries(disk[..], dir.data);
    ghost var k := 0;
    ofs := 0;
    ep := new Byte[ENTRY_SIZE];
    while true
      invariant 0 <= k <= |es| && ofs == ENTRY_SIZE * k
      invariant FirstMatch(es, name, k) == FirstMatch(es, name, 0)
      decreases |es| - k
    {
      ghost var before := ep[..];
      var n := ReadAt(disk, dir, ep, ENTRY_SIZE, ofs, true);
      ReadEntry(disk[..], dir.data, k, before, ep[..]);
      if n != ENTRY_SIZE {
        break;
      }
      var e := DecodeEntry(ep[..]);
      if e.inUse && name == e.name {
        return true, ep, ofs;
      }
      ofs := ofs + ENTRY_SIZE;
      k := k + 1;
    }
    return false, ep, ofs;
  }

  /** Slot k is the first one that is not in use. */
  ghost predicate IsFirstFree(es: seq<DirEntry>, k: nat) {
    k < |es| && !es[k].inUse && forall i :: 0 <= i < k ==> es[i].inUse
  }

  /** What dir_add() promises about the directory: the entry goes to the first free slot. */
  ghost predicate Added(es: seq<DirEntry>, fs: seq<DirEntry>, name: Name, sector: nat, success: bool) {
    if success then
      && 0 < |name| <= NAME_MAX && Unused(es, name)
      && exists k: nat :: IsFirstFree(es, k) && fs == es[k := DirEntry(sector, name, true)]
    else
      fs == es
  }

  ghost predicate HasFreeSlot(es: seq<DirEntry>) {
    exists k :: 0 <= k < |es| && !es[k].inUse
  }

  /** dir_add() fails exactly for an illegal name, a name in use, a directory without a free
      slot or a refused write. */
  ghost predicate CanAdd(es: seq<DirEntry>, name: Name, canWrite: bool) {
    0 < |name| <= 14 && Unused(es, name) && HasFreeSlot(es) && canWrite
  }

  lemma FirstFreeExact(es: seq<DirEntry>)
    ensures FirstFree(es, 0) < |es| <==> HasFreeSlot(es)
    ensures FirstFree(es, 0) < |es| ==> IsFirstFree(es, FirstFree(es, 0))
  {
  }

  /** A directory has a free slot exactly while it has fewer names than slots. */
  lemma {:induction false} FreeSlots(es: seq<DirEntry>)
    requires WellFormed(es)
    ensures |Names(es)| <= |es| && (HasFreeSlot(es) <==> |Names(es)| < |es|)
    decreases |es|
  {
    if es != [] {
      var last, init := es[|es| - 1], es[..|es| - 1];
      WellFormedPrefix(es);
      FreeSlots(init);
      assert HasFreeSlot(es) <==> HasFreeSlot(init) || !last.inUse by {
        assert es == init + [last];
      }
      if last.inUse && last.name in Names(init) {
        NameHasEntry(init, last.name);
        var k :| 0 <= k < |init| && init[k].inUse && init[k].name == last.name && init[k].sector == Names(init)[last.name];
        assert SameInUseName(es, k, |es| - 1);
      }
    }
  }

  lemma NoMatchIsUnused(es: seq<DirEntry>, name: Name)
    ensures FirstMatch(es, name, 0) == |es| <==> Unused(es, name)
  {
    var j := FirstMatch(es, name, 0);
    assert forall k :: 0 <= k < j && es[k].inUse ==> !Matches(es[k], name);
  }

  /** Fills in a directory entry: sector, strlcpy() of the name, in_use.  The bytes behind
      the name's terminator keep their old contents. */
  method SetEntry(e: array<Byte>, sector: nat, name: Name)
    requires e.Length == ENTRY_SIZE && sector < WORD_LIMIT && |name| <= NAME_MAX
    modifies e
    ensures DecodeEntry(e[..]) == DirEntry(sector, name, true)
  {
    e[19] := 1;
    forall i | 0 <= i < |name| {
      e[4 + i] := name[i];
    }
    e[4 + |name|] := 0;
    var w := Le32(sector);
    forall i | 0 <= i < 4 {
      e[i] := w[i];
    }
    ghost var rest := e[5 + |name|..19];
    assert e[..] == w + (name + [0] + rest) + [1];
    DecodeEntryFields(e[..], sector, name, rest, 1);
  }

  /** What a write of one entry at index k does, seen as a directory. */
  lemma EntryWritten(d: seq<Sector>, f: seq<Sector>, h: InodeDisk, k: nat, data: seq<Byte>, n: nat)
    requires Fits(h, |d|) && |f| == |d| && |data| == ENTRY_SIZE && k <= |DirEntries(d, h)|
    requires n <= ENTRY_SIZE && (n > 0 ==> ENTRY_SIZE * k + n <= h.length)
    requires n == ENTRY_SIZE ==> k < |DirEntries(d, h)|
    requires k < |DirEntries(d, h)| ==> n == 0 || n == ENTRY_SIZE
    requires ExtentOf(f, h) == Put(ExtentOf(d, h), ENTRY_SIZE * k, data[..n])
    ensures n == ENTRY_SIZE ==> DirEntries(f, h) == DirEntries(d, h)[k := DecodeEntry(data)]
    ensures n != ENTRY_SIZE ==> DirEntries(f, h) == DirEntries(d, h)
  {
    hide ExtentOf, Content, Entries, DecodeEntry, Splice;
    var c := Content(d, h);
    ContentAfterWrite(d, f, h, ENTRY_SIZE * k, data[..n]);
    if n == ENTRY_SIZE {
      assert data[..n] == data;
      EntriesAfterPut(c, k, data);
    } else if k == |c| / ENTRY_SIZE {
      EntriesAfterTail(c, data[..n]);
    }
  }

  /** A 20-byte write at index k moves all bytes or none, unless k is behind the last entry. */
  lemma EntryTransfer(d: seq<Sector>, h: InodeDisk, k: nat, memory: bool)
    requires Fits(h, |d|) && k <= |DirEntries(d, h)|
    ensures var n := Transferred(ENTRY_SIZE, ENTRY_SIZE * k, h.length, memory);
            && n <= ENTRY_SIZE
            && (n == ENTRY_SIZE <==> k < |DirEntries(d, h)| && memory)
            && (k < |DirEntries(d, h)| ==> n == 0 || n == ENTRY_SIZE)
  {
    hide Content, EntriesUpTo;
  }

  /** dir_add(); memory says whether the write finds memory for its bounce buffer. */
  method DirAdd(disk: array<Sector>, dir: Inode, name: Name, sector: nat, memory: bool)
    returns (success: bool)
    requires Fits(dir.data, disk.Length) && sector < WORD_LIMIT
    modifies disk
    ensures SameOutside(old(disk[..]), disk[..], dir.data)
    ensures success <==> CanAdd(old(DirEntries(disk[..], dir.data)), name, memory && dir.denyWriteCnt == 0)
    ensures Added(old(DirEntries(disk[..], dir.data)), DirEntries(disk[..], dir.data), name, sector, success)
  {
    hide DirEntries, Entries, ExtentOf, Transferred, Available, Fits, DecodeEntry, Put, Window, SectorsFor, Extent, SameOutside, Unused, HasFreeSlot, IsFirstFree;
    ghost var d0, h := disk[..], dir.data;
    ghost var es := DirEntries(d0, h);
    UnchangedDevice(d0, h);
    NoMatchIsUnused(es, name);
    FirstFreeExact(es);
    if |name| == 0 || |name| > NAME_MAX {
      return false;
    }
    var found, e, ofs := Lookup(disk, dir, name);
    if found {
      return false;
    }
    ofs := 0;
    e := new Byte[ENTRY_SIZE];
    ghost var k := 0;
    while true
      invariant disk[..] == d0
      invariant 0 <= k <= |es| && ofs == ENTRY_SIZE * k
      invariant FirstFree(es, k) == FirstFree(es, 0)
      decreases |es| - k
    {
      ghost var before := e[..];
      var n := ReadAt(disk, dir, e, ENTRY_SIZE, ofs, true);
      ReadEntry(disk[..], h, k, before, e[..]);
      if n != ENTRY_SIZE {
        break;
      }
      var entry := DecodeEntry(e[..]);
      if !entry.inUse {
        break;
      }
      ofs := ofs + ENTRY_SIZE;
      k := k + 1;
    }
    SetEntry(e, sector, name);
    EntryTransfer(d0, h, k, memory);
    var n := WriteAt(disk, dir, e, ENTRY_SIZE, ofs, memory);
    assert e[..] == e[..ENTRY_SIZE] && e[..][..n] == e[..n];
    EntryWritten(d0, disk[..], h, k, e[..], n);
    return n == ENTRY_SIZE;
  }

  lemma UnchangedDevice(d: seq<Sector>, h: InodeDisk)
    requires Fits(h, |d|)
    ensures SameOutside(d, d, h)
  {
  }

  // ----- reading a directory -----

  /** An open directory and its position. */
  class Dir {
    const inode: Inode
    var pos: nat

    constructor (inode: Inode)
      ensures this.inode == inode && pos == 0
    {
      this.inode := inode;
      this.pos := 0;
    }

    /** dir_readdir(): the next entry in use, if any. */
    method Readdir(disk: array<Sector>) returns (more: bool, name: Name)
      requires Fits(inode.data, disk.Length) && pos % ENTRY_SIZE == 0
      requires pos / ENTRY_SIZE <= |DirEntries(disk[..], inode.data)|
      modifies this
      ensures pos % ENTRY_SIZE == 0
      ensures var es := DirEntries(disk[..], inode.data);
              var k := FirstInUse(es, old(pos) / ENTRY_SIZE);
              && (more <==> k < |es|)
              && (more ==> name == es[k].name && pos == ENTRY_SIZE * (k + 1))
              && (!more ==> pos == ENTRY_SIZE * |es|)
    {
      hide DirEntries, Entries, Transferred, Available, Fits, DecodeEntry, Put, Window, SectorsFor, Extent;
      ghost var es := DirEntries(disk[..], inode.data);
      ghost var k := pos / ENTRY_SIZE;
      ghost var k0 := k;
      var e := new Byte[ENTRY_SIZE];
      name := [];
      while true
        invariant k0 <= k <= |es| && pos == ENTRY_SIZE * k
        invariant FirstInUse(es, k) == FirstInUse(es, k0)
        decreases |es| - k
      {
        ghost var before := e[..];
        var n := ReadAt(disk, inode, e, ENTRY_SIZE, pos, true);
        ReadEntry(disk[..], inode.data, k, before, e[..]);
        if n != ENTRY_SIZE {
          break;
        }
        pos := pos + ENTRY_SIZE;
        var entry := DecodeEntry(e[..]);
        if entry.inUse {
          return true, entry.name;
        }
        k := k + 1;
      }
      return false, name;
    }
  }

  /** The names that repeated calls of dir_readdir() deliver from entry k on. */
  ghost function Listing(es: seq<DirEntry>, k: nat): (names: seq<Name>)
    requires k <= |es|
    decreases |es| - k
  {
    var j := FirstInUse(es, k);
    if j == |es| then [] else [es[j].name] + Listing(es, j + 1)
  }

  lemma {:induction false} ListingNames(es: seq<DirEntry>, k: nat, name: Name)
    requires WellFormed(es) && k <= |es|
    ensures name in Listing(es, k) <==> exists i :: k <= i < |es| && Matches(es[i], name)
    decreases |es| - k
  {
    var j := FirstInUse(es, k);
    if j < |es| {
      ListingNames(es, j + 1, name);
      assert Matches(es[j], es[j].name);
    }
  }

  lemma NamesApart(es: seq<DirEntry>, j: nat, i: nat)
    requires WellFormed(es) && j < i < |es|
    ensures es[j].inUse ==> !Matches(es[i], es[j].name)
  {
    assert !SameInUseName(es, j, i);
  }

  /** A whole pass over a directory delivers every name of the map exactly once. */
  lemma {:induction false} ListingIsExact(es: seq<DirEntry>, k: nat)
    requires WellFormed(es) && k <= |es|
    ensures forall i, j :: 0 <= i < j < |Listing(es, k)| ==> Listing(es, k)[i] != Listing(es, k)[j]
    ensures k == 0 ==> forall name :: name in Listing(es, 0) <==> name in Names(es)
    decreases |es| - k
  {
    var j := FirstInUse(es, k);
    if j < |es| {
      ListingIsExact(es, j + 1);
      ListingNames(es, j + 1, es[j].name);
      forall i | j + 1 <= i < |es|
        ensures !Matches(es[i], es[j].name)
      {
        NamesApart(es, j, i);
      }
    }
    if k == 0 {
      forall name: Name
        ensures name in Listing(es, 0) <==> name in Names(es)
      {
        ListingNames(es, 0, name);
        UnusedMeansAbsent(es, name);
        assert (exists i :: 0 <= i < |es| && Matches(es[i], name)) <==> !Unused(es, name);
      }
    }
  }

  /** A full pass with dir_readdir(), as a directory listing makes it. */
  method ReadAll(disk: array<Sector>, dir: Dir) returns (names: seq<Name>)
    requires Fits(dir.inode.data, disk.Length) && dir.pos == 0
    modifies dir
    ensures names == Listing(DirEntries(disk[..], dir.inode.data), 0)
  {
    hide DirEntries, Entries, Fits, FirstInUse;
    ghost var es := DirEntries(disk[..], dir.inode.data);
    names := [];
    var more, name := dir.Readdir(disk);
    ghost var k := 0;
    while more
      invariant dir.pos % ENTRY_SIZE == 0 && 0 <= k <= |es|
      invariant more <==> FirstInUse(es, k) < |es|
      invariant more ==> name == es[FirstInUse(es, k)].name && dir.pos == ENTRY_SIZE * (FirstInUse(es, k) + 1)
      invariant names + Listing(es, k) == Listing(es, 0)
      decreases |es| - k, more
    {
      names := names + [name];
      ghost var j := FirstInUse(es, k);
      k := j + 1;
      more, name := dir.Readdir(disk);
    }
  }
}
