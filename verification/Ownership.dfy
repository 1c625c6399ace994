/** Who owns which sector of the file-system device.  A live file is identified by the sector
    of its header; it owns that sector and the extent the header describes. */
module Ownership {
  import opened Bytes
  import opened Bitmaps
  import opened Inodes

  const FREE_MAP_SECTOR: nat := 0
  const ROOT_DIR_SECTOR: nat := 1

  /** Header sector to header, for every file that is named or still open. */
  type Files = map<nat, InodeDisk>

  predicate InExtent(h: InodeDisk, x: int) {
    0 <= h.length <= OFF_MAX && h.start <= x < h.start + SectorsFor(h.length)
  }

  predicate Owns(s: nat, h: InodeDisk, x: int) {
    x == s || InExtent(h, x)
  }

  /** No sector has two owners, and no header lies inside its own extent. */
  ghost predicate Exclusive(files: Files) {
    && (forall s, t, x :: s in files && t in files && Owns(s, files[s], x) && Owns(t, files[t], x) ==> s == t)
    && (forall s :: s in files ==> !InExtent(files[s], s))
  }

  /** Every owned sector exists and is marked in the free map. */
  ghost predicate AllMarked(files: Files, bits: seq<bool>) {
    forall s, x {:trigger Owns(s, files[s], x)} :: s in files && Owns(s, files[s], x) ==> x < |bits| && bits[x]
  }

  /** The device holds the header of every file. */
  ghost predicate HeadersOnDisk(files: Files, d: seq<Sector>) {
    forall s :: s in files ==> s < |d| && Fits(files[s], |d|) && DecodeInode(d[s]) == files[s]
  }

  ghost predicate DeviceOk(files: Files, d: seq<Sector>, bits: seq<bool>) {
    && |d| == |bits| < WORD_LIMIT
    && FREE_MAP_SECTOR in files && ROOT_DIR_SECTOR in files
    && Exclusive(files) && AllMarked(files, bits) && HeadersOnDisk(files, d)
  }

  // ----- allocation -----

  /** Nobody owns any of cnt sectors from start on. */
  ghost predicate Unowned(files: Files, start: nat, cnt: nat) {
    forall s, x :: s in files && start <= x < start + cnt ==> !Owns(s, files[s], x)
  }

  lemma OwnedIsMarked(files: Files, bits: seq<bool>, s: nat, x: int)
    requires AllMarked(files, bits) && s in files
    ensures Owns(s, files[s], x) ==> 0 <= x < |bits| && bits[x]
  {
    if Owns(s, files[s], x) {
      assert Owns(s, files[s], x);
    }
  }

  lemma UnownedIsNotOwned(files: Files, start: nat, cnt: nat, s: nat, x: int)
    requires Unowned(files, start, cnt) && s in files
    ensures Owns(s, files[s], x) ==> !(start <= x < start + cnt)
  {
  }

  /** A group of sectors that is free in the map belongs to nobody. */
  lemma FreeGroupUnowned(files: Files, bits: seq<bool>, start: nat, cnt: nat)
    requires AllMarked(files, bits) && AllAre(bits, start, cnt, false)
    ensures Unowned(files, start, cnt)
  {
    forall s, x | s in files && start <= x < start + cnt
      ensures !Owns(s, files[s], x)
    {
      OwnedIsMarked(files, bits, s, x);
    }
  }

  /** Marking more sectors keeps every owned sector marked; so does unmarking others. */
  lemma MarksKept(files: Files, bits: seq<bool>, start: nat, cnt: nat, value: bool)
    requires AllMarked(files, bits) && start + cnt <= |bits|
    requires value || Unowned(files, start, cnt)
    ensures AllMarked(files, SetRange(bits, start, cnt, value))
  {
    forall s, x | s in files && Owns(s, files[s], x)
      ensures x < |bits| && SetRange(bits, start, cnt, value)[x]
    {
      OwnedIsMarked(files, bits, s, x);
      if !value {
        UnownedIsNotOwned(files, start, cnt, s, x);
      }
    }
  }

  /** Giving unowned, marked sectors to a new file. */
  lemma AddFile(files: Files, d: seq<Sector>, bits: seq<bool>, s: nat, h: InodeDisk)
    requires DeviceOk(files, d, bits)
    requires s < |d| && Fits(h, |d|) && DecodeInode(d[s]) == h
    requires AllAre(bits, s, 1, true) && AllAre(bits, h.start, SectorsFor(h.length), true)
    requires Unowned(files, s, 1) && Unowned(files, h.start, SectorsFor(h.length))
    requires !(h.start <= s < h.start + SectorsFor(h.length))
    ensures s !in files && DeviceOk(files[s := h], d, bits)
  {
    var gs := files[s := h];
    assert s in files ==> Owns(s, files[s], s);
    forall a, x | a in files && Owns(a, files[a], x)
      ensures !Owns(s, h, x)
    {
    }
    AddExclusive(files, s, h);
    assert AllMarked(gs, bits) by {
      forall a, x | a in gs && Owns(a, gs[a], x)
        ensures x < |bits| && bits[x]
      {
        if a != s {
          assert Owns(a, files[a], x);
        }
      }
    }
  }

  lemma AddExclusive(files: Files, s: nat, h: InodeDisk)
    requires Exclusive(files) && s !in files && !InExtent(h, s)
    requires forall a, x :: a in files && Owns(a, files[a], x) ==> !Owns(s, h, x)
    ensures Exclusive(files[s := h])
  {
  }

  // ----- release -----

  function Released(bits: seq<bool>, s: nat, h: InodeDisk): (r: seq<bool>)
    requires s < |bits| && Fits(h, |bits|)
    ensures |r| == |bits|
  {
    SetRange(SetRange(bits, s, 1, false), h.start, SectorsFor(h.length), false)
  }

  /** The assertions of the two free_map_release() calls for a file hold, and the sectors of
      the other files stay marked. */
  lemma DropFile(files: Files, d: seq<Sector>, bits: seq<bool>, s: nat)
    requires DeviceOk(files, d, bits) && s in files && s != FREE_MAP_SECTOR && s != ROOT_DIR_SECTOR
    ensures s < |bits| && Fits(files[s], |bits|)
    ensures AllAre(bits, s, 1, true)
    ensures AllAre(SetRange(bits, s, 1, false), files[s].start, SectorsFor(files[s].length), true)
    ensures DeviceOk(files - {s}, d, Released(bits, s, files[s]))
  {
    var h, gs := files[s], files - {s};
    assert Owns(s, h, s);
    var one := SetRange(bits, s, 1, false);
    forall k | h.start <= k < h.start + SectorsFor(h.length)
      ensures one[k]
    {
      assert InExtent(h, k);
      assert Owns(s, h, k);
    }
    ReleasedBits(bits, s, h);
    DropExclusive(files, s);
    assert AllMarked(gs, Released(bits, s, h)) by {
      forall a, x | a in gs && Owns(a, gs[a], x)
        ensures x < |bits| && Released(bits, s, h)[x]
      {
        assert Owns(a, files[a], x);
        assert !Owns(s, files[s], x);
      }
    }
  }

  /** Releasing a file clears its own sectors and no others. */
  lemma ReleasedBits(bits: seq<bool>, s: nat, h: InodeDisk)
    requires s < |bits| && Fits(h, |bits|)
    ensures forall x :: 0 <= x < |bits| ==> Released(bits, s, h)[x] == (bits[x] && !Owns(s, h, x))
  {
    hide SectorsFor;
  }

  lemma DropExclusive(files: Files, s: nat)
    requires Exclusive(files) && s in files
    ensures Exclusive(files - {s})
  {
    var gs := files - {s};
    forall a, b, x | a in gs && b in gs && Owns(a, gs[a], x) && Owns(b, gs[b], x)
      ensures a == b
    {
      assert Owns(a, files[a], x) && Owns(b, files[b], x);
    }
  }

  // ----- writing sectors -----

  /** Writing only to sectors nobody owns disturbs no header and no file. */
  lemma WriteUnowned(files: Files, d: seq<Sector>, e: seq<Sector>, bits: seq<bool>)
    requires DeviceOk(files, d, bits) && |e| == |d|
    requires forall s, x :: s in files && x < |d| && Owns(s, files[s], x) ==> e[x] == d[x]
    ensures DeviceOk(files, e, bits)
    ensures forall s :: s in files ==> Fits(files[s], |d|) && ExtentOf(e, files[s]) == ExtentOf(d, files[s])
  {
    forall s | s in files
      ensures s < |e| && Fits(files[s], |e|) && DecodeInode(e[s]) == files[s]
      ensures ExtentOf(e, files[s]) == ExtentOf(d, files[s])
    {
      assert Owns(s, files[s], s);
      SameOwned(files[s], s, d, e);
    }
  }

  lemma SameOwned(h: InodeDisk, s: nat, d: seq<Sector>, e: seq<Sector>)
    requires |e| == |d| && Fits(h, |d|)
    requires forall x :: 0 <= x < |d| && Owns(s, h, x) ==> e[x] == d[x]
    ensures ExtentOf(e, h) == ExtentOf(d, h)
  {
    forall k | h.start <= k < h.start + SectorsFor(h.length)
      ensures d[k] == e[k]
    {
      assert InExtent(h, k);
      assert Owns(s, h, k);
    }
    ExtentSame(d, e, h.start, SectorsFor(h.length));
  }

  /** Writing inside the extent of one file disturbs no header and no other file. */
  lemma WriteInside(files: Files, d: seq<Sector>, e: seq<Sector>, bits: seq<bool>, s: nat)
    requires DeviceOk(files, d, bits) && s in files && Fits(files[s], |d|) && SameOutside(d, e, files[s])
    ensures DeviceOk(files, e, bits)
    ensures forall t :: t in files && t != s ==> Fits(files[t], |d|) && ExtentOf(e, files[t]) == ExtentOf(d, files[t])
  {
    forall t | t in files
      ensures t < |e| && Fits(files[t], |e|) && DecodeInode(e[t]) == files[t]
      ensures t != s ==> ExtentOf(e, files[t]) == ExtentOf(d, files[t])
    {
      assert Owns(t, files[t], t);
      if InExtent(files[s], t) {
        assert Owns(s, files[s], t);
      }
      if t != s {
        forall x | 0 <= x < |d| && Owns(t, files[t], x)
          ensures e[x] == d[x]
        {
          assert !Owns(s, files[s], x);
        }
        SameOwned(files[t], t, d, e);
      }
    }
  }
}
