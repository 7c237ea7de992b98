/** Byte-granular file I/O on a sector device: inode_read_at and
    inode_write_at of src/filesys/inode.c. */
module InodeIo {

  type Byte = x: int | 0 <= x < 256

  /** A sector of BLOCK_SECTOR_SIZE bytes. */
  type Sector = s: seq<Byte> | |s| == 512 witness seq(512, _ => 0)

  /** Byte `pos` of the device, seen as one flat array. */
  ghost function At(d: seq<Sector>, pos: int): Byte
    requires 0 <= pos < 512 * |d|
  {
    d[pos / 512][pos % 512]
  }

  /** `e` is `d` with the bytes from `lo` on replaced by `data`. */
  ghost predicate Patched(d: seq<Sector>, e: seq<Sector>, lo: int, data: seq<Byte>) {
    && |e| == |d| && (|data| == 0 || (0 <= lo && lo + |data| <= 512 * |d|))
    && forall pos :: 0 <= pos < 512 * |d| ==>
         At(e, pos) == if lo <= pos < lo + |data| then data[pos - lo] else At(d, pos)
  }

  /** `s` with the bytes from `ofs` on replaced by `data`. */
  function PatchSector(s: Sector, ofs: nat, data: seq<Byte>): (t: Sector)
    requires ofs + |data| <= 512
  {
    s[..ofs] + data + s[ofs + |data|..]
  }

  /** Patching one sector patches the flat array. */
  lemma SectorPatched(d: seq<Sector>, sector: nat, ofs: nat, data: seq<Byte>)
    requires sector < |d| && ofs + |data| <= 512
    ensures Patched(d, d[sector := PatchSector(d[sector], ofs, data)], 512 * sector + ofs, data)
  {
    var e := d[sector := PatchSector(d[sector], ofs, data)];
    var lo := 512 * sector + ofs;
    forall pos | 0 <= pos < 512 * |d|
      ensures At(e, pos) == if lo <= pos < lo + |data| then data[pos - lo] else At(d, pos)
    {
      if pos / 512 == sector {
        assert pos == 512 * sector + pos % 512;
      }
    }
  }

  /** A sector that the patch does not reach stays as it is. */
  lemma SectorKept(d: seq<Sector>, e: seq<Sector>, lo: int, data: seq<Byte>, x: nat)
    requires Patched(d, e, lo, data) && x < |d| && (lo + |data| <= 512 * x || 512 * x + 512 <= lo)
    ensures e[x] == d[x]
  {
    forall i | 0 <= i < 512
      ensures e[x][i] == d[x][i]
    {
      var pos := 512 * x + i;
      assert pos / 512 == x && pos % 512 == i;
      assert At(e, pos) == At(d, pos);
    }
  }

  lemma PatchedNone(d: seq<Sector>, lo: int)
    ensures Patched(d, d, lo, [])
  {
  }

  /** Two adjacent patches make one. */
  lemma PatchedTwice(d: seq<Sector>, e: seq<Sector>, f: seq<Sector>, lo: int, a: seq<Byte>, b: seq<Byte>)
    requires Patched(d, e, lo, a) && Patched(e, f, lo + |a|, b)
    ensures Patched(d, f, lo, a + b)
  {
    forall pos | 0 <= pos < 512 * |d|
      ensures At(f, pos) == if lo <= pos < lo + |a + b| then (a + b)[pos - lo] else At(d, pos)
    {
      assert At(e, pos) == if lo <= pos < lo + |a| then a[pos - lo] else At(d, pos);
    }
  }

  /** The block device holding the file system. */
  class Device {
    var sectors: seq<Sector>

    constructor (n: nat)
      ensures |sectors| == n
    {
      var zeros: Sector := seq(512, _ => 0);
      sectors := seq(n, _ => zeros);
    }

    /** block_read */
    method ReadSector(i: int) returns (s: Sector)
      requires 0 <= i < |sectors|
      ensures s == sectors[i]
    {
      s := sectors[i];
    }

    /** block_write */
    method WriteSector(i: int, s: Sector)
      requires 0 <= i < |sectors|
      modifies this
      ensures sectors == old(sectors)[i := s]
    {
      sectors := sectors[i := s];
    }
  }

  /** struct inode, as far as reading and writing are concerned. */
  class Inode {
    const start: int
    const length: int
    var denyWriteCnt: nat

    constructor (start: int, length: int)
      ensures this.start == start && this.length == length && denyWriteCnt == 0
    {
      this.start, this.length := start, length;
      denyWriteCnt := 0;
    }

    /** The file's sectors lie on the device. */
    ghost predicate FitsOn(d: seq<Sector>) {
      0 <= start && 0 <= length && 512 * start + length <= 512 * |d|
    }
  }

  /** How many bytes a transfer moves. Without memory for the bounce buffer it
      stops before the first chunk that is not a whole sector. */
  function Transferred(length: int, size: int, offset: int, memory: bool): (k: nat)
    requires 0 <= offset
  {
    var left := length - offset;
    var total := if size < left then size else left;
    if total <= 0 then 0
    else if memory then total
    else if offset % 512 != 0 then 0
    else total / 512 * 512
  }

  /** `k` bytes could be moved: they are asked for and in the file, and without
      a bounce buffer they are whole sectors. */
  ghost predicate Movable(length: int, size: int, offset: nat, memory: bool, k: nat) {
    k == 0 || (k <= size && offset + k <= length && (memory || (offset % 512 == 0 && k % 512 == 0)))
  }

  /** A transfer moves as much as it can. */
  lemma TransferredMost(length: int, size: int, offset: nat, memory: bool)
    ensures var k := Transferred(length, size, offset, memory);
      Movable(length, size, offset, memory, k) && forall n: nat :: Movable(length, size, offset, memory, n) ==> n <= k
  {
    var k := Transferred(length, size, offset, memory);
    forall n: nat | Movable(length, size, offset, memory, n)
      ensures n <= k
    {
      if n > 0 && !memory {
        assert n == 512 * (n / 512);
      }
    }
  }

  /** The chunk that the loops move next. */
  function Chunk(length: int, size: int, offset: int): int
    requires 0 <= offset
  {
    var inodeLeft := length - offset;
    var sectorLeft := 512 - offset % 512;
    var minLeft := if inodeLeft < sectorLeft then inodeLeft else sectorLeft;
    if size < minLeft then size else minLeft
  }

  /** The chunks add up to the whole transfer. */
  lemma ChunkStep(length: int, size: int, offset: int, memory: bool)
    requires 0 <= offset
    ensures var c := Chunk(length, size, offset);
      && (c <= 0 || size <= 0 ==> Transferred(length, size, offset, memory) == 0)
      && (c > 0 && (memory || (offset % 512 == 0 && c == 512)) ==>
           Transferred(length, size, offset, memory) == c + Transferred(length, size - c, offset + c, memory))
      && (c > 0 && !memory && !(offset % 512 == 0 && c == 512) ==>
           Transferred(length, size, offset, memory) == 0)
  {
  }

  /** A chunk stays within its sector, the file and the device. */
  lemma ChunkFits(start: int, length: int, size: int, offset: int, n: nat)
    requires 0 <= start && 0 <= offset && 512 * start + length <= 512 * n
    requires 0 < Chunk(length, size, offset)
    ensures var c := Chunk(length, size, offset);
      && c <= size && offset % 512 + c <= 512 && offset + c <= length
      && start + offset / 512 < n
      && 512 * (start + offset / 512) + offset % 512 == 512 * start + offset
  {
  }

  /** One round of inode_write_at's loop: `data` goes into one sector, either
      directly or through the bounce buffer. */
  method WriteChunk(dev: Device, sector: int, ofs: nat, data: seq<Byte>)
    requires 0 <= sector < |dev.sectors| && 0 < |data| && ofs + |data| <= 512
    modifies dev
    ensures |dev.sectors| == |old(dev.sectors)|
    ensures Patched(old(dev.sectors), dev.sectors, 512 * sector + ofs, data)
  {
    SectorPatched(dev.sectors, sector, ofs, data);
    if ofs == 0 && |data| == 512 {
      assert PatchSector(dev.sectors[sector], ofs, data) == data;
      dev.WriteSector(sector, data);
    } else {
      // Start from the sector's own bytes if some of them are to stay.
      var bounce: Sector := seq(512, _ => 0);
      if ofs > 0 || |data| < 512 - ofs {
        bounce := dev.ReadSector(sector);
      }
      bounce := PatchSector(bounce, ofs, data);
      dev.WriteSector(sector, bounce);
    }
  }

  /** The chunk after the first `written` bytes of `buffer` extends the patch. */
  method WriteNext(dev: Device, sector: int, ofs: nat, buffer: seq<Byte>, written: nat, chunk: nat,
                   ghost orig: seq<Sector>, ghost lo: int)
    requires 0 <= sector < |dev.sectors| && 0 < chunk && ofs + chunk <= 512
    requires written + chunk <= |buffer| && 512 * sector + ofs == lo + written
    requires Patched(orig, dev.sectors, lo, buffer[..written])
    modifies dev
    ensures |dev.sectors| == |old(dev.sectors)|
    ensures Patched(orig, dev.sectors, lo, buffer[..written + chunk])
  {
    hide Patched;
    var data := buffer[written..written + chunk];
    WriteChunk(dev, sector, ofs, data);
    PatchedTwice(orig, old(dev.sectors), dev.sectors, lo, buffer[..written], data);
    assert buffer[..written] + data == buffer[..written + chunk];
  }

  /** inode_write_at: the flat device gets exactly the transferred bytes, at
      the file's position, and nothing else changes. `memory` says whether
      the bounce buffer can be allocated. */
  method WriteAt(dev: Device, inode: Inode, buffer: seq<Byte>, size: int, offset: int, memory: bool)
    returns (written: int)
    requires inode.FitsOn(dev.sectors) && 0 <= offset && size <= |buffer|
    modifies dev
    ensures written == if inode.denyWriteCnt != 0 then 0 else Transferred(inode.length, size, offset, memory)
    ensures 0 <= written <= |buffer|
    ensures Patched(old(dev.sectors), dev.sectors, 512 * inode.start + offset, buffer[..written])
  {
    written := 0;
    if inode.denyWriteCnt != 0 {
      assert buffer[..written] == [];
      return;
    }
    hide Patched, Transferred, Chunk;
    ghost var lo := 512 * inode.start + offset;
    PatchedNone(dev.sectors, lo);
    assert buffer[..written] == [];
    var left, pos := size, offset;
    while left > 0
      invariant 0 <= written && written + left == size && pos == offset + written
      invariant left > 0 || written > 0 || size <= 0
      invariant written + (if left > 0 then left else 0) <= |buffer|
      invariant |dev.sectors| == |old(dev.sectors)|
      invariant Transferred(inode.length, size, offset, memory)
             == written + Transferred(inode.length, left, pos, memory)
      invariant Patched(old(dev.sectors), dev.sectors, lo, buffer[..written])
    {
      var sector := inode.start + pos / 512;
      var ofs := pos % 512;
      var chunk := Chunk(inode.length, left, pos);
      ChunkStep(inode.length, left, pos, memory);
      if chunk <= 0 {
        break;
      }
      if !(ofs == 0 && chunk == 512) && !memory {
        break;
      }
      ChunkFits(inode.start, inode.length, left, pos, |dev.sectors|);
      WriteNext(dev, sector, ofs, buffer, written, chunk, old(dev.sectors), lo);
      left, pos, written := left - chunk, pos + chunk, written + chunk;
    }
    ChunkStep(inode.length, left, pos, memory);
  }

  /** One round of inode_read_at's loop. */
  method ReadChunk(dev: Device, sector: int, ofs: nat, buffer: array<Byte>, at: nat, chunk: nat)
    requires 0 <= sector < |dev.sectors| && 0 < chunk && ofs + chunk <= 512
    requires at + chunk <= buffer.Length
    modifies buffer
    ensures forall i :: 0 <= i < buffer.Length ==>
      buffer[i] == if at <= i < at + chunk then dev.sectors[sector][ofs + i - at] else old(buffer[i])
  {
    if ofs == 0 && chunk == 512 {
      var s := dev.ReadSector(sector);
      forall i | 0 <= i < 512 {
        buffer[at + i] := s[i];
      }
    } else {
      var bounce := dev.ReadSector(sector);
      forall i | 0 <= i < chunk {
        buffer[at + i] := bounce[ofs + i];
      }
    }
  }

  /** The device has `data` from `lo` on. */
  ghost predicate Holds(d: seq<Sector>, lo: int, data: seq<Byte>) {
    |data| > 0 ==>
      0 <= lo && lo + |data| <= 512 * |d| && forall i :: 0 <= i < |data| ==> data[i] == At(d, lo + i)
  }

  lemma HoldsNone(d: seq<Sector>, lo: int)
    ensures Holds(d, lo, [])
  {
  }

  lemma HoldsMore(d: seq<Sector>, lo: int, a: seq<Byte>, sector: nat, ofs: nat, b: seq<Byte>)
    requires Holds(d, lo, a) && 0 <= lo && sector < |d| && ofs + |b| <= 512 && 512 * sector + ofs == lo + |a|
    requires b == d[sector][ofs..ofs + |b|]
    ensures Holds(d, lo, a + b)
  {
    forall i | 0 <= i < |a + b|
      ensures (a + b)[i] == At(d, lo + i)
    {
      if i >= |a| {
        var k := ofs + i - |a|;
        assert lo + i == 512 * sector + k;
        assert (lo + i) / 512 == sector && (lo + i) % 512 == k;
      }
    }
  }

  /** The chunk after the first `read` bytes. */
  method ReadNext(dev: Device, sector: int, ofs: nat, buffer: array<Byte>, read: nat, chunk: nat, ghost lo: int)
    requires 0 <= sector < |dev.sectors| && 0 < chunk && ofs + chunk <= 512 && read + chunk <= buffer.Length
    requires 0 <= lo && 512 * sector + ofs == lo + read && Holds(dev.sectors, lo, buffer[..read])
    modifies buffer
    ensures Holds(dev.sectors, lo, buffer[..read + chunk])
    ensures buffer[read + chunk..] == old(buffer[read + chunk..])
  {
    hide Holds;
    ReadChunk(dev, sector, ofs, buffer, read, chunk);
    ghost var b := dev.sectors[sector][ofs..ofs + chunk];
    HoldsMore(dev.sectors, lo, old(buffer[..read]), sector, ofs, b);
    assert buffer[..read + chunk] == old(buffer[..read]) + b;
  }

  /** inode_read_at: the buffer gets exactly the transferred bytes of the
      file, and nothing on the device changes. */
  method ReadAt(dev: Device, inode: Inode, buffer: array<Byte>, size: int, offset: int, memory: bool)
    returns (read: int)
    requires inode.FitsOn(dev.sectors) && 0 <= offset && size <= buffer.Length
    modifies buffer
    ensures read == Transferred(inode.length, size, offset, memory) && read <= buffer.Length
    ensures Holds(dev.sectors, 512 * inode.start + offset, buffer[..read])
    ensures buffer[read..] == old(buffer[read..])
  {
    hide Holds, Transferred, Chunk;
    read := 0;
    ghost var lo := 512 * inode.start + offset;
    HoldsNone(dev.sectors, lo);
    assert buffer[..read] == [];
    var left, pos := size, offset;
    while left > 0
      invariant 0 <= read && read + left == size && pos == offset + read
      invariant read + (if left > 0 then left else 0) <= buffer.Length
      invariant Transferred(inode.length, size, offset, memory) == read + Transferred(inode.length, left, pos, memory)
      invariant Holds(dev.sectors, lo, buffer[..read])
      invariant buffer[read..] == old(buffer[..])[read..]
    {
      var sector := inode.start + pos / 512;
      var ofs := pos % 512;
      var chunk := Chunk(inode.length, left, pos);
      ChunkStep(inode.length, left, pos, memory);
      if chunk <= 0 {
        break;
      }
      if !(ofs == 0 && chunk == 512) && !memory {
        break;
      }
      ChunkFits(inode.start, inode.length, left, pos, |dev.sectors|);
      ReadNext(dev, sector, ofs, buffer, read, chunk, lo);
      left, pos, read := left - chunk, pos + chunk, read + chunk;
    }
    ChunkStep(inode.length, left, pos, memory);
  }

  /** Reading back what was just written returns it, for every alignment and
      every mix of whole-sector and bounced chunks. */
  method WriteThenRead(dev: Device, inode: Inode, data: seq<Byte>, offset: int, buffer: array<Byte>)
    returns (written: int, read: int)
    requires inode.FitsOn(dev.sectors) && 0 <= offset && inode.denyWriteCnt == 0
    requires |data| == buffer.Length
    modifies dev, buffer
    ensures 0 <= written == read <= |data|
    ensures written == |data| <==> |data| == 0 || offset + |data| <= inode.length
    ensures buffer[..read] == data[..written]
  {
    written := WriteAt(dev, inode, data, |data|, offset, true);
    read := ReadAt(dev, inode, buffer, |data|, offset, true);
  }
}
