/** Inodes (filesys/inode.c): the on-disk header and byte-range reads and writes over the
    sectors of an extent, refined to slices and splices of one flat byte sequence. */
module Inodes {
  import opened Bytes

  const SECTOR_SIZE: int := 512
  const INODE_MAGIC: int := 0x494e4f44
  const OFF_MAX: int := 0x7fff_ffff

  type Sector = s: seq<Byte> | |s| == 512 witness seq(512, _ => 0)

  /** An off_t that is not negative. */
  type Offset = x: int | 0 <= x <= OFF_MAX witness 0

  // ----- on-disk inodes -----

  datatype InodeDisk = InodeDisk(start: nat, length: int)

  predicate Representable(h: InodeDisk) {
    h.start < WORD_LIMIT && 0 <= h.length <= OFF_MAX
  }

  /** start, length and magic followed by zeros, as calloc() left them. */
  function EncodeInode(h: InodeDisk): (s: Sector)
    requires Representable(h)
  {
    Le32(h.start) + Le32(h.length) + Le32(INODE_MAGIC) + seq(500, _ => 0)
  }

  function DecodeInode(s: Sector): (h: InodeDisk) {
    var length := Word(s[4..8]);
    InodeDisk(Word(s[0..4]), if length <= OFF_MAX then length else length - WORD_LIMIT)
  }

  lemma DecodeEncodeInode(h: InodeDisk)
    requires Representable(h)
    ensures DecodeInode(EncodeInode(h)) == h
  {
    WordOfLe32(h.start);
    WordOfLe32(h.length);
    var s := EncodeInode(h);
    assert s[0..4] == Le32(h.start);
    assert s[4..8] == Le32(h.length);
  }

  /** Where a header has its fields: little-endian words for the first sector, the length and the
      number that tells inodes from other sectors, and then zeros. */
  lemma InodeLayout(h: InodeDisk)
    requires Representable(h)
    ensures var s := EncodeInode(h);
            && (s[0] as int) + 256 * (s[1] as int) + 65536 * (s[2] as int) + 16777216 * (s[3] as int) == h.start
            && (s[4] as int) + 256 * (s[5] as int) + 65536 * (s[6] as int) + 16777216 * (s[7] as int) == h.length
            && s[8] == 0x44 && s[9] == 0x4f && s[10] == 0x4e && s[11] == 0x49
            && forall i :: 12 <= i < 512 ==> s[i] == 0
  {
    WordOfLe32(h.start);
    WordOfLe32(h.length);
  }

  /** bytes_to_sectors(): the rounding sum is computed in a 32-bit off_t, so it wraps for
      the last 511 lengths; the quotient truncates and is then read as a size_t. */
  function SectorsFor(length: Offset): (n: nat)
    ensures n * SECTOR_SIZE >= length
    ensures length <= OFF_MAX - 511 ==> n == (length + 511) / SECTOR_SIZE
    ensures length > OFF_MAX - 511 ==> n >= 0xff00_0000
  {
    if length + 511 <= OFF_MAX then (length + 511) / SECTOR_SIZE
    else WORD_LIMIT - (WORD_LIMIT - (length + 511)) / SECTOR_SIZE
  }

  // ----- extents as flat byte sequences -----

  /** The bytes of cnt consecutive sectors. */
  ghost function Extent(d: seq<Sector>, start: nat, cnt: nat): (b: seq<Byte>)
    requires start + cnt <= |d|
    ensures |b| == SECTOR_SIZE * cnt
  {
    if cnt == 0 then [] else Extent(d, start, cnt - 1) + d[start + cnt - 1]
  }

  lemma {:induction false} ExtentIndex(d: seq<Sector>, start: nat, cnt: nat, p: nat)
    requires start + cnt <= |d| && p < SECTOR_SIZE * cnt
    ensures p / SECTOR_SIZE < cnt
    ensures Extent(d, start, cnt)[p] == d[start + p / SECTOR_SIZE][p % SECTOR_SIZE]
    decreases cnt
  {
    if p < SECTOR_SIZE * (cnt - 1) {
      ExtentIndex(d, start, cnt - 1, p);
    }
  }

  lemma {:induction false} ExtentSame(d: seq<Sector>, e: seq<Sector>, start: nat, cnt: nat)
    requires start + cnt <= |d| == |e|
    requires forall k :: start <= k < start + cnt ==> d[k] == e[k]
    ensures Extent(d, start, cnt) == Extent(e, start, cnt)
    decreases cnt
  {
    if cnt > 0 {
      ExtentSame(d, e, start, cnt - 1);
    }
  }

  /** Replacing part of one sector is a splice of the flat byte sequence. */
  lemma ExtentPut(d: seq<Sector>, start: nat, cnt: nat, pos: nat, data: seq<Byte>)
    requires start + cnt <= |d| && pos + |data| <= SECTOR_SIZE * cnt
    requires 0 < |data| && pos % SECTOR_SIZE + |data| <= SECTOR_SIZE
    ensures pos / SECTOR_SIZE < cnt
    ensures var k := start + pos / SECTOR_SIZE;
            Extent(d[k := Splice(d[k], pos % SECTOR_SIZE, data)], start, cnt) == Splice(Extent(d, start, cnt), pos, data)
  {
    var k, ofs := start + pos / SECTOR_SIZE, pos % SECTOR_SIZE;
    var e: seq<Sector> := d[k := Splice(d[k], ofs, data)];
    var l, r := Extent(e, start, cnt), Splice(Extent(d, start, cnt), pos, data);
    forall p | 0 <= p < SECTOR_SIZE * cnt
      ensures l[p] == r[p]
    {
      ExtentPutIndex(d, start, cnt, pos, data, p);
    }
  }

  lemma ExtentPutIndex(d: seq<Sector>, start: nat, cnt: nat, pos: nat, data: seq<Byte>, p: nat)
    requires start + cnt <= |d| && pos + |data| <= SECTOR_SIZE * cnt
    requires 0 < |data| && pos % SECTOR_SIZE + |data| <= SECTOR_SIZE
    requires p < SECTOR_SIZE * cnt
    ensures pos / SECTOR_SIZE < cnt
    ensures var k := start + pos / SECTOR_SIZE;
            Extent(d[k := Splice(d[k], pos % SECTOR_SIZE, data)], start, cnt)[p] == Splice(Extent(d, start, cnt), pos, data)[p]
  {
    hide Extent, Splice;
    var k, ofs := start + pos / SECTOR_SIZE, pos % SECTOR_SIZE;
    var e: seq<Sector> := d[k := Splice(d[k], ofs, data)];
    ExtentIndex(d, start, cnt, p);
    ExtentIndex(e, start, cnt, p);
    SpliceIndex(Extent(d, start, cnt), pos, data, p);
    if p / SECTOR_SIZE == pos / SECTOR_SIZE {
      SpliceIndex(d[k], ofs, data, p % SECTOR_SIZE);
      assert p - pos == p % SECTOR_SIZE - ofs;
    } else {
      SameSectorRange(pos, |data|, p);
    }
  }

  lemma SameSectorRange(pos: nat, n: nat, p: nat)
    requires pos % SECTOR_SIZE + n <= SECTOR_SIZE
    ensures pos <= p < pos + n ==> p / SECTOR_SIZE == pos / SECTOR_SIZE
  {
  }

  /** A slice inside one sector is a slice of the flat byte sequence. */
  lemma ExtentGet(d: seq<Sector>, start: nat, cnt: nat, pos: nat, n: nat)
    requires start + cnt <= |d| && pos + n <= SECTOR_SIZE * cnt
    requires 0 < n && pos % SECTOR_SIZE + n <= SECTOR_SIZE
    ensures pos / SECTOR_SIZE < cnt
    ensures d[start + pos / SECTOR_SIZE][pos % SECTOR_SIZE..pos % SECTOR_SIZE + n] == Extent(d, start, cnt)[pos..pos + n]
  {
    hide Extent;
    var l := d[start + pos / SECTOR_SIZE][pos % SECTOR_SIZE..pos % SECTOR_SIZE + n];
    var r := Extent(d, start, cnt)[pos..pos + n];
    forall i | 0 <= i < n
      ensures l[i] == r[i]
    {
      ExtentIndex(d, start, cnt, pos + i);
      SameSectorRange(pos, n, pos + i);
    }
  }

  // ----- reading and writing byte ranges -----

  /** An in-memory inode. */
  class Inode {
    const sector: nat
    var openCnt: int
    var removed: bool
    var denyWriteCnt: int
    var data: InodeDisk

    constructor (sector: nat, data: InodeDisk)
      ensures this.sector == sector && openCnt == 1 && !removed && denyWriteCnt == 0 && this.data == data
    {
      this.sector := sector;
      this.openCnt := 1;
      this.denyWriteCnt := 0;
      this.removed := false;
      this.data := data;
    }
  }

  /** The extent of h lies on a device of n sectors. */
  predicate Fits(h: InodeDisk, n: nat) {
    0 <= h.length <= OFF_MAX && h.start + SectorsFor(h.length) <= n
  }

  ghost function ExtentOf(d: seq<Sector>, h: InodeDisk): (b: seq<Byte>)
    requires Fits(h, |d|)
    ensures |b| == SECTOR_SIZE * SectorsFor(h.length)
  {
    Extent(d, h.start, SectorsFor(h.length))
  }

  /** The bytes of the file with header h: its extent without the tail of the last sector. */
  ghost function Content(d: seq<Sector>, h: InodeDisk): (b: seq<Byte>)
    requires Fits(h, |d|)
    ensures |b| == h.length
  {
    ExtentOf(d, h)[..h.length]
  }

  /** How many bytes a request at offset moves.  Without memory for the bounce buffer only
      the leading whole sectors of an aligned request are transferred. */
  function Transferred(size: int, offset: nat, length: Offset, memory: bool): (n: nat)
    ensures n <= Available(size, offset, length)
    ensures memory ==> n == Available(size, offset, length)
  {
    var n := Available(size, offset, length);
    if memory then n else if offset % SECTOR_SIZE == 0 then n / SECTOR_SIZE * SECTOR_SIZE else 0
  }

  /** min(size, max(0, length - offset)) */
  function Available(size: int, offset: nat, length: Offset): (n: nat)
    ensures n > 0 ==> offset + n <= length
  {
    var left := if offset < length then length - offset else 0;
    if size <= 0 then 0 else if size < left then size else left
  }

  /** A transfer moves as much as the request and the file allow; without memory for the bounce
      buffer, as many whole sectors, and none unless the offset is at a sector's start. */
  lemma TransferredExact(size: int, offset: nat, length: Offset, memory: bool, m: nat)
    ensures var n := Transferred(size, offset, length, memory);
            && (n > 0 ==> n <= size && offset + n <= length)
            && (!memory && n > 0 ==> offset % 512 == 0 && n % 512 == 0)
            && (0 < m <= size && offset + m <= length && (memory || (offset % 512 == 0 && m % 512 == 0)) ==> m <= n)
  {
  }

  /** The chunk sizes of the loops: what is left of the request, of the inode and of the
      sector at offset.  Its result is positive as long as bytes remain. */
  function ChunkSize(size: int, offset: nat, length: Offset): (c: int)
    ensures size > 0 && offset < length ==> 0 < c <= size && offset + c <= length && offset % SECTOR_SIZE + c <= SECTOR_SIZE
    ensures size > 0 && offset >= length ==> c <= 0
  {
    var inodeLeft := length - offset;
    var sectorLeft := SECTOR_SIZE - offset % SECTOR_SIZE;
    var minLeft := if inodeLeft < sectorLeft then inodeLeft else sectorLeft;
    if size < minLeft then size else minLeft
  }

  /** The progress of a transfer loop that has moved done bytes of a request. */
  predicate Progress(size: int, offset: nat, length: Offset, memory: bool, done: nat) {
    && done <= Available(size, offset, length)
    && (!memory && done > 0 ==> done % SECTOR_SIZE == 0 && offset % SECTOR_SIZE == 0)
  }

  /** Leaving the loop because nothing is left, or for want of a bounce buffer. */
  lemma TransferEnds(size: int, offset: nat, length: Offset, memory: bool, done: nat)
    requires Progress(size, offset, length, memory, done)
    ensures done >= size || ChunkSize(size - done, offset + done, length) <= 0
            ==> done == Transferred(size, offset, length, memory)
    ensures var c := ChunkSize(size - done, offset + done, length);
            done < size && !memory && 0 < c && !((offset + done) % SECTOR_SIZE == 0 && c == SECTOR_SIZE)
            ==> done == Transferred(size, offset, length, memory)
  {
    if memory {
    } else {
      AlignedRest(offset, done, Available(size, offset, length));
    }
  }

  lemma AlignedRest(offset: nat, done: nat, n: nat)
    requires done <= n && (done > 0 ==> done % SECTOR_SIZE == 0 && offset % SECTOR_SIZE == 0)
    ensures (offset + done) % SECTOR_SIZE == 0 <==> offset % SECTOR_SIZE == 0
    ensures offset % SECTOR_SIZE == 0 && n - done < SECTOR_SIZE ==> done == n / SECTOR_SIZE * SECTOR_SIZE
    ensures offset % SECTOR_SIZE != 0 ==> done == 0
  {
  }

  /** A further chunk keeps the loop on track. */
  lemma TransferContinues(size: int, offset: nat, length: Offset, memory: bool, done: nat)
    requires Progress(size, offset, length, memory, done) && done < size
    requires var c := ChunkSize(size - done, offset + done, length);
             0 < c && (memory || ((offset + done) % SECTOR_SIZE == 0 && c == SECTOR_SIZE))
    ensures Progress(size, offset, length, memory, done + ChunkSize(size - done, offset + done, length))
  {
    if memory {
    } else {
      AlignedRest(offset, done, Available(size, offset, length));
    }
  }

  /** byte_to_sector() */
  method ByteToSector(inode: Inode, pos: nat) returns (r: int)
    requires 0 <= inode.data.length <= OFF_MAX
    ensures pos < inode.data.length ==> r == inode.data.start + pos / SECTOR_SIZE
    ensures pos >= inode.data.length ==> r == -1
  {
    if pos < inode.data.length {
      return inode.data.start + pos / SECTOR_SIZE;
    } else {
      return -1;
    }
  }

  /** block_read(): one sector into a buffer at ofs. */
  method BlockRead(disk: array<Sector>, sector: nat, buffer: array<Byte>, ofs: nat)
    requires sector < disk.Length && ofs + SECTOR_SIZE <= buffer.Length
    requires buffer as object != disk
    modifies buffer
    ensures buffer[..] == Splice(old(buffer[..]), ofs, disk[sector])
  {
    forall i | 0 <= i < SECTOR_SIZE {
      buffer[ofs + i] := disk[sector][i];
    }
  }

  /** block_write(): one sector from a buffer at ofs. */
  method BlockWrite(disk: array<Sector>, sector: nat, buffer: array<Byte>, ofs: nat)
    requires sector < disk.Length && ofs + SECTOR_SIZE <= buffer.Length
    modifies disk
    ensures disk[..] == old(disk[..])[sector := buffer[ofs..ofs + SECTOR_SIZE]]
  {
    disk[sector] := buffer[ofs..ofs + SECTOR_SIZE];
  }

  /** One round of the read loop: a piece of one sector lands behind what is already there. */
  lemma ReadRound(d: seq<Sector>, h: InodeDisk, start: seq<Byte>, buffer: seq<Byte>, offset0: nat, done: nat, c: nat)
    requires Fits(h, |d|) && offset0 + done + c <= h.length && 0 < c
    requires (offset0 + done) % SECTOR_SIZE + c <= SECTOR_SIZE
    requires done + c <= |start| == |buffer|
    requires buffer == Put(start, 0, Window(ExtentOf(d, h), offset0, done))
    ensures (offset0 + done) / SECTOR_SIZE < SectorsFor(h.length)
    ensures Splice(buffer, done, PieceAt(d, h, offset0 + done, c)) == Put(start, 0, Window(ExtentOf(d, h), offset0, done + c))
  {
    hide Extent, SectorsFor, Splice;
    var flat, pos := ExtentOf(d, h), offset0 + done;
    ExtentGet(d, h.start, SectorsFor(h.length), pos, c);
    assert PieceAt(d, h, pos, c) == Window(flat, pos, c);
    WindowAppend(flat, offset0, done, c);
    PutAppend(start, 0, Window(flat, offset0, done), Window(flat, pos, c));
  }

  /** The c bytes at position pos of the file, read from the sector that holds them. */
  ghost function PieceAt(d: seq<Sector>, h: InodeDisk, pos: nat, c: nat): (b: seq<Byte>)
    requires Fits(h, |d|) && pos / SECTOR_SIZE < SectorsFor(h.length) && pos % SECTOR_SIZE + c <= SECTOR_SIZE
    ensures |b| == c
  {
    d[h.start + pos / SECTOR_SIZE][pos % SECTOR_SIZE..pos % SECTOR_SIZE + c]
  }

  /** inode_read_at(); memory says whether the bounce buffer can be allocated. */
  method ReadAt(disk: array<Sector>, inode: Inode, buffer: array<Byte>, size0: int, offset0: nat, memory: bool)
    returns (bytesRead: nat)
    requires Fits(inode.data, disk.Length)
    requires size0 <= buffer.Length && buffer as object != disk
    modifies buffer
    ensures bytesRead == Transferred(size0, offset0, inode.data.length, memory)
    ensures buffer[..] == Put(old(buffer[..]), 0, Window(Content(disk[..], inode.data), offset0, bytesRead))
  {
    hide Progress, Transferred, Available, ChunkSize, Content, ExtentOf, Extent, SectorsFor, Fits, Splice, Put, Window;
    var size, offset := size0, offset0;
    bytesRead := 0;
    var bounce: array?<Byte> := null;
    ghost var h := inode.data;
    FitsFacts(h, disk.Length);
    var length: Offset := inode.data.length;
    StartOfTransfer(size0, offset0, length, memory);
    NothingYet(buffer[..], ExtentOf(disk[..], h), offset0);
    while size > 0
      invariant size == size0 - bytesRead && offset == offset0 + bytesRead
      invariant bounce != null ==> memory && fresh(bounce) && bounce.Length == SECTOR_SIZE
      invariant Progress(size0, offset0, length, memory, bytesRead)
      invariant bytesRead > 0 ==> bytesRead <= size0 && offset0 + bytesRead <= length
      invariant buffer[..] == Put(old(buffer[..]), 0, Window(ExtentOf(disk[..], h), offset0, bytesRead))
      decreases size
    {
      var sectorIdx := ByteToSector(inode, offset);
      var sectorOfs := offset % SECTOR_SIZE;
      var chunkSize := ChunkSize(size, offset, length);
      TransferEnds(size0, offset0, length, memory, bytesRead);
      if chunkSize <= 0 {
        break;
      }
      ReadRound(disk[..], h, old(buffer[..]), buffer[..], offset0, bytesRead, chunkSize);
      if sectorOfs == 0 && chunkSize == SECTOR_SIZE {
        assert disk[sectorIdx][0..SECTOR_SIZE] == disk[sectorIdx];
        BlockRead(disk, sectorIdx, buffer, bytesRead);
      } else {
        if bounce == null {
          if !memory {
            break;
          }
          bounce := new Byte[SECTOR_SIZE];
        }
        SpliceWhole(bounce[..], disk[sectorIdx]);
        BlockRead(disk, sectorIdx, bounce, 0);
        CopyBytes(buffer, bytesRead, bounce, sectorOfs, chunkSize);
      }
      TransferContinues(size0, offset0, length, memory, bytesRead);
      size := size - chunkSize;
      offset := offset + chunkSize;
      bytesRead := bytesRead + chunkSize;
    }
    TransferEnds(size0, offset0, length, memory, bytesRead);
    WindowOfContent(disk[..], h, offset0, bytesRead);
  }

  /** The device after writing data at position pos of the file, inside one sector. */
  ghost function PutPiece(d: seq<Sector>, h: InodeDisk, pos: nat, data: seq<Byte>): (e: seq<Sector>)
    requires Fits(h, |d|) && pos / SECTOR_SIZE < SectorsFor(h.length) && pos % SECTOR_SIZE + |data| <= SECTOR_SIZE
    ensures |e| == |d|
  {
    var k := h.start + pos / SECTOR_SIZE;
    d[k := Splice(d[k], pos % SECTOR_SIZE, data)]
  }

  /** The sectors outside the extent of h are the same. */
  ghost predicate SameOutside(d: seq<Sector>, e: seq<Sector>, h: InodeDisk)
    requires Fits(h, |d|)
  {
    |e| == |d| && forall k :: 0 <= k < |d| && !(h.start <= k < h.start + SectorsFor(h.length)) ==> e[k] == d[k]
  }

  /** One round of the write loop. */
  lemma WriteRound(d0: seq<Sector>, d: seq<Sector>, h: InodeDisk, flat: seq<Byte>, data: seq<Byte>, offset0: nat, done: nat, c: nat)
    requires |d| == |d0| && Fits(h, |d|) && offset0 + done + c <= |flat| && 0 < c && done + c <= |data|
    requires (offset0 + done) / SECTOR_SIZE < SectorsFor(h.length) && (offset0 + done) % SECTOR_SIZE + c <= SECTOR_SIZE
    requires ExtentOf(d, h) == Put(flat, offset0, data[..done]) && SameOutside(d0, d, h)
    ensures var e := PutPiece(d, h, offset0 + done, data[done..done + c]);
            ExtentOf(e, h) == Put(flat, offset0, data[..done + c]) && SameOutside(d0, e, h)
  {
    hide Extent, SectorsFor, Splice;
    var pos, piece := offset0 + done, data[done..done + c];
    ExtentPut(d, h.start, SectorsFor(h.length), pos, piece);
    assert data[..done] + piece == data[..done + c];
    PutAppend(flat, offset0, data[..done], piece);
  }

  /** inode_write_at(), for a part of a sector: read, modify, write. */
  method BounceWrite(disk: array<Sector>, sectorIdx: nat, sectorOfs: nat, bounce: array<Byte>, buffer: array<Byte>, from: nat, chunkSize: nat)
    requires sectorIdx < disk.Length && bounce.Length == SECTOR_SIZE && bounce != buffer && bounce as object != disk && buffer as object != disk
    requires sectorOfs + chunkSize <= SECTOR_SIZE && from + chunkSize <= buffer.Length && !(sectorOfs == 0 && chunkSize == SECTOR_SIZE)
    modifies disk, bounce
    ensures disk[..] == old(disk[..])[sectorIdx := Splice(old(disk[sectorIdx]), sectorOfs, buffer[..][from..from + chunkSize])]
  {
    hide Splice;
    var sectorLeft := SECTOR_SIZE - sectorOfs;
    if sectorOfs > 0 || chunkSize < sectorLeft {
      SpliceWhole(bounce[..], disk[sectorIdx]);
      BlockRead(disk, sectorIdx, bounce, 0);
    } else {
      // A whole sector never takes this path, so its memset() is dead code.
      assert false;
    }
    CopyBytes(bounce, sectorOfs, buffer, from, chunkSize);
    assert bounce[0..SECTOR_SIZE] == bounce[..];
    assert buffer[..][from..from + chunkSize] == buffer[from..from + chunkSize];
    BlockWrite(disk, sectorIdx, bounce, 0);
  }

  /** inode_write_at(); the bytes outside the written range, among them the tail of the last
      sector, and all other sectors stay as they were. */
  method WriteAt(disk: array<Sector>, inode: Inode, buffer: array<Byte>, size0: int, offset0: nat, memory: bool)
    returns (bytesWritten: nat)
    requires Fits(inode.data, disk.Length)
    requires size0 <= buffer.Length && buffer as object != disk
    modifies disk
    ensures bytesWritten == if inode.denyWriteCnt != 0 then 0 else Transferred(size0, offset0, inode.data.length, memory)
    ensures bytesWritten <= buffer.Length && (bytesWritten > 0 ==> offset0 + bytesWritten <= inode.data.length)
    ensures ExtentOf(disk[..], inode.data) == Put(old(ExtentOf(disk[..], inode.data)), offset0, buffer[..bytesWritten])
    ensures SameOutside(old(disk[..]), disk[..], inode.data)
  {
    hide Progress, Transferred, Available, ChunkSize, ExtentOf, Extent, SectorsFor, Fits, Splice, Put, SameOutside;
    var size, offset := size0, offset0;
    bytesWritten := 0;
    var bounce: array?<Byte> := null;
    ghost var h := inode.data;
    FitsFacts(h, disk.Length);
    NothingWritten(disk[..], h, offset0, buffer[..]);
    if inode.denyWriteCnt != 0 {
      return 0;
    }
    var length: Offset := inode.data.length;
    StartOfTransfer(size0, offset0, length, memory);
    while size > 0
      invariant size == size0 - bytesWritten && offset == offset0 + bytesWritten
      invariant bounce != null ==> memory && fresh(bounce) && bounce.Length == SECTOR_SIZE
      invariant Progress(size0, offset0, length, memory, bytesWritten)
      invariant bytesWritten <= buffer.Length
      invariant bytesWritten > 0 ==> offset0 + bytesWritten <= length
      invariant ExtentOf(disk[..], h) == Put(old(ExtentOf(disk[..], h)), offset0, buffer[..bytesWritten])
      invariant SameOutside(old(disk[..]), disk[..], h)
      decreases size
    {
      var sectorIdx := ByteToSector(inode, offset);
      var sectorOfs := offset % SECTOR_SIZE;
      var chunkSize := ChunkSize(size, offset, length);
      TransferEnds(size0, offset0, length, memory, bytesWritten);
      if chunkSize <= 0 {
        break;
      }
      ghost var piece := buffer[..][bytesWritten..bytesWritten + chunkSize];
      WriteRound(old(disk[..]), disk[..], h, old(ExtentOf(disk[..], inode.data)), buffer[..], offset0, bytesWritten, chunkSize);
      ghost var next := PutPiece(disk[..], h, offset, piece);
      if sectorOfs == 0 && chunkSize == SECTOR_SIZE {
        SpliceWhole(disk[sectorIdx], piece);
        BlockWrite(disk, sectorIdx, buffer, bytesWritten);
      } else {
        if bounce == null {
          if !memory {
            break;
          }
          bounce := new Byte[SECTOR_SIZE];
        }
        BounceWrite(disk, sectorIdx, sectorOfs, bounce, buffer, bytesWritten, chunkSize);
      }
      assert disk[..] == next;
      assert buffer[..][..bytesWritten + chunkSize] == buffer[..bytesWritten + chunkSize];
      TransferContinues(size0, offset0, length, memory, bytesWritten);
      size := size - chunkSize;
      offset := offset + chunkSize;
      bytesWritten := bytesWritten + chunkSize;
    }
    TransferEnds(size0, offset0, length, memory, bytesWritten);
  }

  lemma NothingWritten(d: seq<Sector>, h: InodeDisk, ofs: nat, data: seq<Byte>)
    requires Fits(h, |d|)
    ensures ExtentOf(d, h) == Put(ExtentOf(d, h), ofs, data[..0]) && SameOutside(d, d, h)
  {
  }

  /** In terms of the file's own bytes: a splice of the content. */
  lemma ContentAfterWrite(d: seq<Sector>, e: seq<Sector>, h: InodeDisk, ofs: nat, data: seq<Byte>)
    requires Fits(h, |d|) && |e| == |d| && (|data| > 0 ==> ofs + |data| <= h.length)
    requires ExtentOf(e, h) == Put(ExtentOf(d, h), ofs, data)
    ensures Content(e, h) == Put(Content(d, h), ofs, data)
  {
    hide Extent, SectorsFor;
    if |data| > 0 {
      SplicePrefix(ExtentOf(d, h), ofs, data, h.length);
    }
  }

  lemma FitsFacts(h: InodeDisk, n: nat)
    requires Fits(h, n)
    ensures 0 <= h.length <= OFF_MAX && h.start + SectorsFor(h.length) <= n
  {
  }

  lemma StartOfTransfer(size: int, offset: nat, length: Offset, memory: bool)
    ensures Progress(size, offset, length, memory, 0)
  {
  }

  lemma NothingYet(b: seq<Byte>, flat: seq<Byte>, ofs: nat)
    ensures Put(b, 0, Window(flat, ofs, 0)) == b
  {
  }

  lemma WindowOfContent(d: seq<Sector>, h: InodeDisk, ofs: nat, n: nat)
    requires Fits(h, |d|) && (n > 0 ==> ofs + n <= h.length)
    ensures Window(Content(d, h), ofs, n) == Window(ExtentOf(d, h), ofs, n)
  {
    hide Extent, SectorsFor;
    if n > 0 {
      assert ExtentOf(d, h)[..h.length][ofs..ofs + n] == ExtentOf(d, h)[ofs..ofs + n];
    }
  }
}
