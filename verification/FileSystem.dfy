/** Sector ownership in the file system: the free map (src/filesys/free-map.c),
    inodes (src/filesys/inode.c) and the operations of src/filesys/filesys.c.
    The root directory is its sequence of slots, and every search of it may be
    cut short for want of memory. */
module FileSystem {
  import opened Options
  import opened Bitmaps
  import opened InodeIo
  import opened Directories

  /** struct inode_disk */
  datatype DiskInode = DiskInode(start: nat, length: nat)

  /** struct inode, in the list of open inodes. */
  datatype OpenInode = OpenInode(openCnt: nat, removed: bool, data: DiskInode)

  /** bytes_to_sectors */
  function SectorCnt(length: nat): (n: nat)
    ensures 512 * n >= length > 512 * (n - 1)
  {
    (length + 511) / 512
  }

  type Disk = map<nat, DiskInode>
  type Opens = map<nat, OpenInode>
  type Slots = seq<Slot>

  /** Sector `x` belongs to the file whose inode is in sector `s`. */
  ghost predicate Owns(s: nat, d: DiskInode, x: nat) {
    x == s || d.start <= x < d.start + SectorCnt(d.length)
  }

  /** The free map's and the root directory's inodes have fixed sectors. */
  ghost predicate System(s: nat) {
    s == 0 || s == 1
  }

  /** A file that is in the directory or still open. */
  ghost predicate Live(opens: Opens, dir: Slots, s: nat) {
    System(s) || s in opens || InDir(dir, s)
  }

  /** Some entry in use points to the inode in sector `s`. */
  ghost predicate InDir(dir: Slots, s: nat) {
    exists k :: 0 <= k < |dir| && dir[k].inUse && dir[k].sector == s
  }

  /** The file's sectors are marked used, and its inode is not among its data. */
  ghost predicate Held(u: seq<bool>, s: nat, d: DiskInode) {
    && Run(u, s, 1, true) && Run(u, d.start, SectorCnt(d.length), true)
    && !(d.start <= s < d.start + SectorCnt(d.length))
  }

  ghost predicate Disjoint(s: nat, d: DiskInode, t: nat, e: DiskInode) {
    forall x :: !(Owns(s, d, x) && Owns(t, e, x))
  }

  ghost predicate OpensOk(disk: Disk, opens: Opens, dir: Slots) {
    forall s :: s in opens ==>
      && s in disk && opens[s].data == disk[s] && opens[s].openCnt > 0
      && (opens[s].removed ==> !InDir(dir, s) && !System(s))
  }

  /** Entries in use point to different inodes, none of them a system file.
      Two of them may have the same name. */
  ghost predicate DirOk(dir: Slots) {
    && (forall j, k :: 0 <= j < k < |dir| && dir[j].inUse && dir[k].inUse ==> dir[j].sector != dir[k].sector)
    && (forall k :: 0 <= k < |dir| && dir[k].inUse ==> dir[k].sector >= 0 && !System(dir[k].sector))
  }

  /** No sector belongs to two live files, and every sector of a live file is
      marked used. */
  ghost predicate Consistent(u: seq<bool>, disk: Disk, opens: Opens, dir: Slots) {
    && (forall s :: Live(opens, dir, s) ==> s in disk && Held(u, s, disk[s]))
    && (forall s, t :: Live(opens, dir, s) && Live(opens, dir, t) && s != t ==> Disjoint(s, disk[s], t, disk[t]))
    && OpensOk(disk, opens, dir)
    && DirOk(dir)
  }

  // ------------------------------------------------ what the steps keep

  /** Marking more sectors used keeps every file's hold. */
  lemma MarkKeeps(u: seq<bool>, v: seq<bool>, disk: Disk, opens: Opens, dir: Slots)
    requires Consistent(u, disk, opens, dir)
    requires |v| == |u| && forall k :: 0 <= k < |u| && u[k] ==> v[k]
    ensures Consistent(v, disk, opens, dir)
  {
    hide Disjoint, OpensOk, DirOk, Live;
  }

  /** No live file owns a sector that is marked free. */
  lemma FreeUnowned(u: seq<bool>, disk: Disk, opens: Opens, dir: Slots, x: nat, s: nat)
    requires Consistent(u, disk, opens, dir) && x < |u| && !u[x] && Live(opens, dir, s)
    ensures !Owns(s, disk[s], x)
  {
    hide Disjoint, OpensOk, DirOk, Live;
    assert Held(u, s, disk[s]);
  }

  /** Freeing sectors that no live file owns is harmless. */
  lemma ReleaseKeeps(u: seq<bool>, disk: Disk, opens: Opens, dir: Slots, lo: nat, n: nat)
    requires Consistent(u, disk, opens, dir) && lo + n <= |u|
    requires forall s, x :: Live(opens, dir, s) && lo <= x < lo + n ==> !Owns(s, disk[s], x)
    ensures Consistent(Filled(u, lo, n, false), disk, opens, dir)
  {
    hide Disjoint, OpensOk, DirOk, Live;
    var v := Filled(u, lo, n, false);
    forall s | Live(opens, dir, s)
      ensures s in disk && Held(v, s, disk[s])
    {
      var d := disk[s];
      assert Held(u, s, d) && Owns(s, d, s);
      forall k | d.start <= k < d.start + SectorCnt(d.length)
        ensures v[k]
      {
        assert Owns(s, d, k);
      }
    }
  }

  /** Writing sectors that no live file has its inode in changes no file. */
  lemma DiskKeeps(u: seq<bool>, disk: Disk, disk': Disk, opens: Opens, dir: Slots)
    requires Consistent(u, disk, opens, dir)
    requires forall s :: Live(opens, dir, s) ==> s in disk' && disk'[s] == disk[s]
    ensures Consistent(u, disk', opens, dir)
  {
    hide Disjoint, Held, DirOk;
  }

  /** A file made of sectors that were free gets an entry, in whatever slot:
      one in use loses the file it pointed to. */
  lemma LinkKeeps(u: seq<bool>, disk: Disk, opens: Opens, dir: Slots, k: nat, name: seq<Byte>, s: nat)
    requires Consistent(u, disk, opens, dir) && k < |dir|
    requires s in disk && Held(u, s, disk[s])
    requires forall t, x :: Live(opens, dir, t) && Owns(s, disk[s], x) ==> !Owns(t, disk[t], x)
    ensures !Live(opens, dir, s)
    ensures Consistent(u, disk, opens, dir[k := Slot(s, name, true)])
  {
    hide Held;
    assert Owns(s, disk[s], s);
    var dir' := dir[k := Slot(s, name, true)];
    LinkLive(opens, dir, k, name, s);
    forall t, r | Live(opens, dir', t) && Live(opens, dir', r) && t != r
      ensures Disjoint(t, disk[t], r, disk[r])
    {
      if t == s {
        assert Live(opens, dir, r);
      } else {
        assert Live(opens, dir, t);
        assert r != s ==> Live(opens, dir, r);
      }
    }
    assert DirOk(dir') by {
      forall j | 0 <= j < |dir| && dir[j].inUse
        ensures dir[j].sector != s
      {
        assert InDir(dir, dir[j].sector);
      }
    }
  }

  lemma LinkLive(opens: Opens, dir: Slots, k: nat, name: seq<Byte>, s: nat)
    requires k < |dir|
    ensures forall t :: Live(opens, dir[k := Slot(s, name, true)], t) ==> t == s || Live(opens, dir, t)
    ensures forall t :: InDir(dir[k := Slot(s, name, true)], t) ==> t == s || InDir(dir, t)
  {
    var dir' := dir[k := Slot(s, name, true)];
    forall t | InDir(dir', t)
      ensures t == s || InDir(dir, t)
    {
      var j :| 0 <= j < |dir'| && dir'[j].inUse && dir'[j].sector == t;
      assert j != k ==> dir[j] == dir'[j];
    }
  }

  lemma UnlinkLive(dir: Slots, k: nat)
    requires k < |dir| && dir[k].inUse && DirOk(dir)
    ensures var dir' := dir[k := dir[k].(inUse := false)];
      !InDir(dir', dir[k].sector) && forall t :: InDir(dir', t) <==> InDir(dir, t) && t != dir[k].sector
  {
    var dir' := dir[k := dir[k].(inUse := false)];
    forall t: nat
      ensures InDir(dir', t) <==> InDir(dir, t) && t != dir[k].sector
    {
      if InDir(dir', t) {
        var j :| 0 <= j < |dir'| && dir'[j].inUse && dir'[j].sector == t;
        assert dir[j] == dir'[j];
        assert j < k ==> dir[j].sector != dir[k].sector;
        assert k < j ==> dir[k].sector != dir[j].sector;
      }
      if InDir(dir, t) && t != dir[k].sector {
        var j :| 0 <= j < |dir| && dir[j].inUse && dir[j].sector == t;
        assert dir'[j] == dir[j];
      }
    }
  }

  /** Opening or reopening a file changes the list of open inodes alone. */
  lemma OpenKeeps(u: seq<bool>, disk: Disk, opens: Opens, dir: Slots, s: nat, o: OpenInode)
    requires Consistent(u, disk, opens, dir) && Live(opens, dir, s)
    requires o.data == disk[s] && o.openCnt > 0
    requires o.removed == (s in opens && opens[s].removed)
    ensures Consistent(u, disk, opens[s := o], dir)
  {
    hide Held, Disjoint;
    assert forall t :: Live(opens[s := o], dir, t) <==> Live(opens, dir, t);
  }

  /** Removing the name of an open file leaves it live until it is closed. */
  lemma UnlinkKeeps(u: seq<bool>, disk: Disk, opens: Opens, dir: Slots, k: nat)
    requires Consistent(u, disk, opens, dir) && k < |dir| && dir[k].inUse && dir[k].sector in opens
    ensures var s := dir[k].sector;
      Consistent(u, disk, opens[s := opens[s].(removed := true)], dir[k := dir[k].(inUse := false)])
  {
    hide Held, Disjoint, InDir;
    var s := dir[k].sector;
    var opens' := opens[s := opens[s].(removed := true)];
    var dir' := dir[k := dir[k].(inUse := false)];
    UnlinkLive(dir, k);
    assert forall t :: Live(opens', dir', t) ==> Live(opens, dir, t);
  }

  /** The last close of a file. */
  lemma CloseKeeps(u: seq<bool>, disk: Disk, opens: Opens, dir: Slots, s: nat)
    requires Consistent(u, disk, opens, dir) && s in opens
    ensures Consistent(u, disk, opens - {s}, dir)
    ensures opens[s].removed ==> !Live(opens - {s}, dir, s)
  {
    hide Held, Disjoint;
    assert forall t :: Live(opens - {s}, dir, t) ==> Live(opens, dir, t);
  }

  /** `v` is `u` with one more group of `n` sectors marked. */
  ghost predicate Grown(u: seq<bool>, v: seq<bool>, lo: nat, n: nat) {
    Run(u, lo, n, false) && v == Filled(u, lo, n, true)
  }

  /** The first group of `n` free sectors starts at `i`. */
  ghost predicate FirstFree(u: seq<bool>, n: nat, i: nat) {
    Run(u, i, n, false) && forall k: nat :: k < i ==> !Run(u, k, n, false)
  }

  /** There is a sector for an inode, and without it still a group of `n` for
      the data. */
  ghost predicate RoomFor(u: seq<bool>, n: nat) {
    exists s: nat, lo: nat :: FirstFree(u, 1, s) && Run(u, lo, n, false) && !(lo <= s < lo + n)
  }

  lemma NoRoom(u: seq<bool>, n: nat)
    ensures RoomFor(u, n) ==> exists i: nat :: Run(u, i, 1, false)
  {
  }

  lemma RoomIff(u: seq<bool>, s: nat, n: nat)
    requires FirstFree(u, 1, s)
    ensures RoomFor(u, n) <==> exists lo: nat :: Run(Filled(u, s, 1, true), lo, n, false)
  {
    var v := Filled(u, s, 1, true);
    forall lo: nat
      ensures Run(v, lo, n, false) <==> Run(u, lo, n, false) && !(lo <= s < lo + n)
    {
      RunWithout(u, s, lo, n);
    }
    if RoomFor(u, n) {
      var t: nat, lo: nat :| FirstFree(u, 1, t) && Run(u, lo, n, false) && !(lo <= t < lo + n);
      FirstFreeUnique(u, 1, s, t);
      assert Run(v, lo, n, false);
    }
    if lo: nat :| Run(v, lo, n, false) {
      assert Run(u, lo, n, false) && !(lo <= s < lo + n);
    }
  }

  lemma RunWithout(u: seq<bool>, s: nat, lo: nat, n: nat)
    requires s < |u| && !u[s]
    ensures Run(Filled(u, s, 1, true), lo, n, false) <==> Run(u, lo, n, false) && !(lo <= s < lo + n)
  {
    var v := Filled(u, s, 1, true);
    assert |v| == |u| && v[s] && forall k :: 0 <= k < |u| && k != s ==> v[k] == u[k];
  }

  lemma FirstFreeUnique(u: seq<bool>, n: nat, s: nat, t: nat)
    requires FirstFree(u, n, s) && FirstFree(u, n, t)
    ensures s == t
  {
    assert !(s < t) && !(t < s);
  }

  /** A new file's sectors were all free, so no live file owns any of them. */
  lemma NewFileUnowned(u: seq<bool>, v: seq<bool>, w: seq<bool>, disk: Disk, opens: Opens, dir: Slots,
                       s: nat, d: DiskInode)
    requires Consistent(u, disk, opens, dir) && Grown(u, v, s, 1) && Grown(v, w, d.start, SectorCnt(d.length))
    ensures Held(w, s, d)
    ensures forall t, x :: Live(opens, dir, t) && Owns(s, d, x) ==> !Owns(t, disk[t], x)
  {
    assert v[s];
    forall t, x | Live(opens, dir, t) && Owns(s, d, x)
      ensures !Owns(t, disk[t], x)
    {
      FreeUnowned(u, disk, opens, dir, x, t);
    }
  }

  /** Freeing the inode's sector again leaves only the data marked. */
  lemma Undone(u: seq<bool>, v: seq<bool>, w: seq<bool>, s: nat, d: DiskInode)
    requires Grown(u, v, s, 1) && Grown(v, w, d.start, SectorCnt(d.length))
    ensures Grown(u, Filled(w, s, 1, false), d.start, SectorCnt(d.length))
  {
    assert v[s];
    var x := Filled(w, s, 1, false);
    var y := Filled(u, d.start, SectorCnt(d.length), true);
    assert forall k :: 0 <= k < |u| && k != s ==> v[k] == u[k];
    assert x == y;
  }

  lemma FreeNotLive(u: seq<bool>, disk: Disk, opens: Opens, dir: Slots, s: nat)
    requires Consistent(u, disk, opens, dir) && s < |u| && !u[s]
    ensures !Live(opens, dir, s)
  {
    hide Live, Disjoint;
    forall t: nat | Live(opens, dir, t)
      ensures t < |u| && u[t]
    {
      assert Held(u, t, disk[t]);
    }
  }

  /** `w` is `u` with the sectors of a file marked, all of them free in `u`. */
  ghost predicate NewMarks(u: seq<bool>, w: seq<bool>, s: nat, d: DiskInode) {
    && |w| == |u|
    && (forall x: nat :: Owns(s, d, x) ==> x < |u| && !u[x] && w[x])
    && (forall x: nat :: x < |u| && !Owns(s, d, x) ==> w[x] == u[x])
  }

  lemma AllNew(u: seq<bool>, v: seq<bool>, w: seq<bool>, s: nat, d: DiskInode)
    requires Grown(u, v, s, 1) && Grown(v, w, d.start, SectorCnt(d.length))
    ensures NewMarks(u, w, s, d)
  {
  }

  lemma LiveOnDisk(u: seq<bool>, disk: Disk, opens: Opens, dir: Slots)
    requires Consistent(u, disk, opens, dir)
    ensures forall s: nat :: Live(opens, dir, s) ==> s in disk
  {
  }

  // ------------------------------------------------------ file contents

  /** Sector `x` holds data of a file. */
  ghost predicate InData(d: DiskInode, x: nat) {
    d.start <= x < d.start + SectorCnt(d.length)
  }

  /** Byte `i` of a file. */
  ghost function FileByte(sectors: seq<Sector>, d: DiskInode, i: nat): Byte
    requires i < d.length && d.start + SectorCnt(d.length) <= |sectors|
  {
    At(sectors, 512 * d.start + i)
  }

  /** All of a file's data is on the device. */
  ghost predicate OnDevice(sectors: seq<Sector>, d: DiskInode) {
    d.start + SectorCnt(d.length) <= |sectors|
  }

  /** Every sector but the data sectors of `d` is unchanged. */
  ghost predicate OnlyData(before: seq<Sector>, after: seq<Sector>, d: DiskInode) {
    |after| == |before| && forall x: nat :: x < |before| && !InData(d, x) ==> after[x] == before[x]
  }

  lemma PatchInData(before: seq<Sector>, after: seq<Sector>, d: DiskInode, offset: nat, data: seq<Byte>)
    requires Patched(before, after, 512 * d.start + offset, data) && (data == [] || offset + |data| <= d.length)
    ensures OnlyData(before, after, d)
  {
    hide Patched;
    PatchedLength(before, after, 512 * d.start + offset, data);
    forall x: nat | x < |before| && !InData(d, x)
      ensures after[x] == before[x]
    {
      if data == [] {
        UnpatchedKept(before, after, 512 * d.start + offset, x);
      } else {
        SectorKept(before, after, 512 * d.start + offset, data, x);
      }
    }
  }

  lemma PatchedLength(before: seq<Sector>, after: seq<Sector>, lo: int, data: seq<Byte>)
    requires Patched(before, after, lo, data)
    ensures |after| == |before|
  {
  }

  lemma UnpatchedKept(before: seq<Sector>, after: seq<Sector>, lo: int, x: nat)
    requires Patched(before, after, lo, []) && x < |before|
    ensures after[x] == before[x]
  {
    assert Patched(before, after, 512 * x, []) by {
      assert forall pos :: 0 <= pos < 512 * |before| ==> At(after, pos) == At(before, pos);
    }
    SectorKept(before, after, 512 * x, [], x);
  }

  /** No other live file, and no inode, is touched by a change of the data
      sectors of `s` alone. */
  lemma OthersKept(u: seq<bool>, disk: Disk, opens: Opens, dir: Slots, s: nat, t: nat,
                   before: seq<Sector>, after: seq<Sector>)
    requires Consistent(u, disk, opens, dir) && Live(opens, dir, s) && Live(opens, dir, t)
    requires |before| == |u| && s in disk && OnlyData(before, after, disk[s])
    ensures t in disk && t < |before| && after[t] == before[t] && OnDevice(before, disk[t])
    ensures t != s ==> forall i: nat :: i < disk[t].length ==>
      FileByte(after, disk[t], i) == FileByte(before, disk[t], i)
  {
    hide Live, OpensOk, DirOk, SectorCnt;
    assert Held(u, s, disk[s]) && Held(u, t, disk[t]);
    if t != s {
      assert Disjoint(s, disk[s], t, disk[t]);
      assert Owns(t, disk[t], t);
      forall i: nat | i < disk[t].length
        ensures FileByte(after, disk[t], i) == FileByte(before, disk[t], i)
      {
        ByteOwned(t, disk[t], i);
      }
    }
  }

  lemma ByteOwned(s: nat, d: DiskInode, i: nat)
    requires i < d.length
    ensures (512 * d.start + i) / 512 == d.start + i / 512 && Owns(s, d, d.start + i / 512)
  {
  }

  ghost predicate IsZero(s: Sector) {
    forall i :: 0 <= i < 512 ==> s[i] == 0
  }

  /** `n` sectors from `lo` on are filled with zeros. */
  ghost predicate Zeroed(before: seq<Sector>, after: seq<Sector>, lo: nat, n: nat) {
    && |after| == |before|
    && forall x: nat :: x < |before| ==> if lo <= x < lo + n then IsZero(after[x]) else after[x] == before[x]
  }

  /** All bytes of a file. */
  ghost function Bytes(sectors: seq<Sector>, d: DiskInode): (c: seq<Byte>)
    requires OnDevice(sectors, d)
    ensures |c| == d.length && forall i: nat :: i < d.length ==> c[i] == FileByte(sectors, d, i)
  {
    seq(d.length, i requires 0 <= i < d.length => FileByte(sectors, d, i))
  }

  /** All data sectors of a file are filled with zeros. */
  ghost predicate ZeroData(sectors: seq<Sector>, d: DiskInode) {
    OnDevice(sectors, d) && forall x: nat :: InData(d, x) ==> IsZero(sectors[x])
  }

  lemma ZeroedBytes(sectors: seq<Sector>, d: DiskInode)
    requires ZeroData(sectors, d)
    ensures forall i: nat :: i < d.length ==> Bytes(sectors, d)[i] == 0
  {
    forall i: nat | i < d.length
      ensures FileByte(sectors, d, i) == 0
    {
      ByteOwned(0, d, i);
    }
  }

  /** The bytes of a file are those of its own sectors. */
  lemma SameBytes(before: seq<Sector>, after: seq<Sector>, d: DiskInode)
    requires OnDevice(before, d) && |after| == |before|
    requires forall x: nat :: x < |before| && InData(d, x) ==> after[x] == before[x]
    ensures OnDevice(after, d) && Bytes(after, d) == Bytes(before, d)
  {
    forall i: nat | i < d.length
      ensures FileByte(after, d, i) == FileByte(before, d, i)
    {
      ByteOwned(0, d, i);
    }
  }

  lemma OpenOnDevice(u: seq<bool>, disk: Disk, opens: Opens, dir: Slots, s: nat)
    requires Consistent(u, disk, opens, dir) && s in opens
    ensures s in disk && disk[s] == opens[s].data && Live(opens, dir, s)
    ensures opens[s].data.start + SectorCnt(opens[s].data.length) <= |u|
  {
    assert Live(opens, dir, s);
    assert Held(u, s, disk[s]);
  }

  lemma TransferInside(length: int, size: int, offset: nat, memory: bool)
    ensures var k := Transferred(length, size, offset, memory); k == 0 || offset + k <= length
  {
  }

  /** A change that leaves alone every sector that is marked used leaves alone
      the bytes of every live file. */
  lemma MarkedKept(u: seq<bool>, disk: Disk, opens: Opens, dir: Slots, before: seq<Sector>, after: seq<Sector>)
    requires Consistent(u, disk, opens, dir) && |before| == |after| == |u|
    requires forall x: nat :: x < |u| && u[x] ==> after[x] == before[x]
    ensures forall t: nat :: Live(opens, dir, t) ==>
      t in disk && OnDevice(before, disk[t]) && OnDevice(after, disk[t]) &&
      Bytes(after, disk[t]) == Bytes(before, disk[t])
  {
    hide Live, OpensOk, DirOk, Disjoint, Bytes;
    forall t: nat | Live(opens, dir, t)
      ensures t in disk && OnDevice(before, disk[t]) && OnDevice(after, disk[t])
      ensures Bytes(after, disk[t]) == Bytes(before, disk[t])
    {
      assert Held(u, t, disk[t]);
      SameBytes(before, after, disk[t]);
    }
  }

  class FileSys {
    const freeMap: Bitmap
    const dev: Device
    var disk: Disk
    var opens: Opens
    var dir: Slots

    /** A mounted file system, its root directory empty. */
    constructor (freeMap: Bitmap, dev: Device, disk: Disk, dir: Slots)
      requires freeMap.Valid() && Consistent(freeMap.Contents(), disk, map[], dir)
      requires |dev.sectors| == |freeMap.Contents()|
      ensures Valid() && this.freeMap == freeMap && this.dev == dev
      ensures this.disk == disk && opens == map[] && this.dir == dir
    {
      this.freeMap, this.dev, this.disk := freeMap, dev, disk;
      this.opens, this.dir := map[], dir;
    }

    /** The free map has a bit for every sector of the device. */
    ghost predicate Valid()
      reads this, freeMap.bits, dev
    {
      freeMap.Valid() && Consistent(freeMap.Contents(), disk, opens, dir) && |dev.sectors| == |freeMap.Contents()|
    }

    /** The free map as a sequence of flags. */
    ghost function Marks(): seq<bool>
      reads freeMap.bits
      requires freeMap.Valid()
    {
      freeMap.Contents()
    }

    ghost predicate IsLive(s: nat)
      reads this
    {
      Live(opens, dir, s)
    }

    /** free_map_allocate. `persisted` says whether the free map's own file
        could be written. */
    method Allocate(cnt: nat, persisted: bool) returns (r: Option<nat>)
      requires freeMap.Valid()
      modifies freeMap.bits
      ensures r.Some? ==> FirstFree(old(Marks()), cnt, r.value) && Grown(old(Marks()), Marks(), r.value, cnt)
      ensures r.None? ==> Marks() == old(Marks())
      ensures r.Some? <==> persisted && exists i: nat :: Run(old(Marks()), i, cnt, false)
    {
      r := freeMap.ScanAndFlip(0, cnt, false);
      if r.Some? && !persisted {
        freeMap.SetMultiple(r.value, cnt, false);
        assert Marks() == old(Marks());
        r := None;
      }
    }

    /** free_map_release; the precondition is its assertion. */
    method Release(sector: nat, cnt: nat)
      requires freeMap.Valid() && Run(Marks(), sector, cnt, true)
      modifies freeMap.bits
      ensures Marks() == Filled(old(Marks()), sector, cnt, false)
    {
      freeMap.SetMultiple(sector, cnt, false);
    }

    /** Zeroing the new file's data destroys whatever those sectors held. */
    method ZeroSectors(start: nat, cnt: nat)
      requires start + cnt <= |dev.sectors|
      modifies this`disk, dev
      ensures Zeroed(old(dev.sectors), dev.sectors, start, cnt)
      ensures disk.Keys == old(disk.Keys) - set x | x in old(disk) && start <= x < start + cnt
      ensures forall x :: x in disk ==> disk[x] == old(disk)[x]
    {
      var zeros: Sector := seq(512, _ => 0);
      var i := 0;
      while i < cnt
        invariant 0 <= i <= cnt
        invariant disk.Keys == old(disk.Keys) - set x | x in old(disk) && start <= x < start + i
        invariant forall x :: x in disk ==> disk[x] == old(disk)[x]
        invariant Zeroed(old(dev.sectors), dev.sectors, start, i)
      {
        disk := disk - {start + i};
        dev.WriteSector(start + i, zeros);
        i := i + 1;
      }
    }

    /** inode_create, in a sector that no live file owns. */
    method InodeCreate(sector: nat, length: nat, memory: bool, persisted: bool) returns (ok: bool)
      requires Valid() && sector < |Marks()| && Marks()[sector]
      requires !IsLive(sector)
      modifies this`disk, freeMap.bits, dev
      ensures Valid()
      ensures ok <==> memory && persisted && exists i: nat :: Run(old(Marks()), i, SectorCnt(length), false)
      ensures ok ==> sector in disk && disk[sector].length == length
      ensures ok ==> FirstFree(old(Marks()), SectorCnt(length), disk[sector].start)
      ensures ok ==> Grown(old(Marks()), Marks(), disk[sector].start, SectorCnt(length))
      ensures ok ==> ZeroData(dev.sectors, disk[sector])
      ensures forall x: nat :: x < |old(Marks())| && old(Marks())[x] && x != sector ==>
        dev.sectors[x] == old(dev.sectors)[x]
      ensures !ok ==> Marks() == old(Marks()) && disk == old(disk) && dev.sectors == old(dev.sectors)
      ensures forall s :: IsLive(s) ==> s in disk && s in old(disk) && disk[s] == old(disk)[s]
    {
      hide Disjoint, OpensOk, DirOk, Live, Held, Consistent;
      LiveOnDisk(Marks(), disk, opens, dir);
      if !memory {
        return false;
      }
      var sectors := SectorCnt(length);
      ghost var u := Marks();
      var start := Allocate(sectors, persisted);
      if start.None? {
        return false;
      }
      forall s, x | IsLive(s) && start.value <= x < start.value + sectors
        ensures !Owns(s, disk[s], x)
      {
        FreeUnowned(u, disk, opens, dir, x, s);
      }
      assert forall s :: IsLive(s) ==> Owns(s, disk[s], s);
      MarkKeeps(u, Marks(), disk, opens, dir);
      disk := disk[sector := DiskInode(start.value, length)];
      ZeroSectors(start.value, sectors);
      assert sector in disk;
      DiskKeeps(Marks(), old(disk), disk, opens, dir);
      ok := true;
    }

    /** Whether everything filesys_create depends on outside the disk works. */
    ghost predicate Provided(root: bool, persisted1: bool, memory: bool, persisted2: bool) {
      root && persisted1 && memory && persisted2
    }

    /** filesys_create. The flags say whether the root directory could be
        opened, whether each write of the free map worked, whether there was
        memory for the inode, how far the searches of dir_add could read and
        whether its entry could be written. On success the file consists of
        sectors that were free, the first that fit; a failure leaves every
        file and entry alone, and costs the data sectors just when it is
        dir_add that has failed. */
    method Create(name: seq<Byte>, size: nat, root: bool, persisted1: bool, memory: bool, persisted2: bool,
                  avail1: nat, avail2: nat, written: bool)
      returns (ok: bool)
      requires Valid()
      modifies this`disk, this`dir, freeMap.bits, dev
      ensures Valid()
      ensures forall s :: old(IsLive(s)) ==> s in disk && s in old(disk) && disk[s] == old(disk)[s]
      ensures ok <==> Provided(root, persisted1, memory, persisted2) && RoomFor(old(Marks()), SectorCnt(size))
                      && AddSlot(old(dir), name, 0, avail1, avail2, written).Some?
      ensures ok ==> exists s: nat ::
        && FirstFree(old(Marks()), 1, s) && Some(dir) == AddSlot(old(dir), name, s, avail1, avail2, written)
        && !old(IsLive(s)) && s in disk && disk[s].length == size
        && NewMarks(old(Marks()), Marks(), s, disk[s])
        && ZeroData(dev.sectors, disk[s])
      ensures forall t: nat :: old(IsLive(t)) && !System(t) ==>
        OnDevice(old(dev.sectors), disk[t]) && OnDevice(dev.sectors, disk[t]) &&
        Bytes(dev.sectors, disk[t]) == Bytes(old(dev.sectors), disk[t])
      ensures !ok ==> dir == old(dir)
      ensures !ok ==>
        if Provided(root, persisted1, memory, persisted2) && RoomFor(old(Marks()), SectorCnt(size)) then
          exists lo :: Grown(old(Marks()), Marks(), lo, SectorCnt(size))
        else Marks() == old(Marks())
    {
      hide Consistent, Held, Live, Owns, NewMarks, AddSlot, RoomFor, FirstFree, Bytes, OnDevice, ZeroData;
      LiveOnDisk(Marks(), disk, opens, dir);
      ghost var u := Marks();
      MarkedKept(u, disk, opens, dir, dev.sectors, dev.sectors);
      if !root {
        return false;
      }
      var sector := Allocate(1, persisted1);
      NoRoom(u, SectorCnt(size));
      if sector.None? {
        return false;
      }
      RoomIff(u, sector.value, SectorCnt(size));
      var s := sector.value;
      ghost var v := Marks();
      assert !IsLive(s) by { FreeNotLive(u, disk, opens, dir, s); }
      MarkKeeps(u, v, disk, opens, dir);
      ok := InodeCreate(s, size, memory, persisted2);
      MarkedKept(u, old(disk), opens, dir, old(dev.sectors), dev.sectors);
      if !ok {
        Release(s, 1);
        assert Marks() == u;
        return;
      }
      assert forall t :: Live(opens, dir, t) ==> disk[t] == old(disk)[t];
      NewFileUnowned(u, v, Marks(), old(disk), opens, dir, s, disk[s]);
      SectorIrrelevant(dir, name, s, avail1, avail2, written);
      ok := AddEntry(name, s, avail1, avail2, written, u, v);
    }

    /** The end of filesys_create: dir_add, or else the release of the inode's
        sector. `u` and `v` are the free map before the two allocations. */
    method AddEntry(name: seq<Byte>, s: nat, avail1: nat, avail2: nat, written: bool,
                    ghost u: seq<bool>, ghost v: seq<bool>)
      returns (ok: bool)
      requires Valid() && s in disk && Held(Marks(), s, disk[s])
      requires Grown(u, v, s, 1) && Grown(v, Marks(), disk[s].start, SectorCnt(disk[s].length))
      requires forall t, x :: IsLive(t) && Owns(s, disk[s], x) ==> !Owns(t, disk[t], x)
      modifies this`dir, freeMap.bits
      ensures Valid()
      ensures ok == AddSlot(old(dir), name, s, avail1, avail2, written).Some?
      ensures ok ==> Some(dir) == AddSlot(old(dir), name, s, avail1, avail2, written)
      ensures ok ==> NewMarks(u, Marks(), s, disk[s])
      ensures !ok ==> dir == old(dir) && Grown(u, Marks(), disk[s].start, SectorCnt(disk[s].length))
    {
      hide Consistent, Live, FreeIndex, FirstMatch;
      ghost var w := Marks();
      var r := AddSlot(dir, name, s, avail1, avail2, written);
      ok := r.Some?;
      if ok {
        LinkKeeps(w, disk, opens, dir, FreeIndex(dir, avail2), name, s);
        AllNew(u, v, w, s, disk[s]);
        dir := r.value;
      } else {
        assert Owns(s, disk[s], s);
        ReleaseKeeps(w, disk, opens, dir, s, 1);
        Undone(u, v, w, s, disk[s]);
        Release(s, 1);
      }
    }

    /** inode_open: an inode that is open already is shared. */
    method InodeOpen(s: nat, memory: bool) returns (ok: bool)
      requires Valid() && IsLive(s)
      modifies this`opens
      ensures Valid()
      ensures ok <==> s in old(opens) || memory
      ensures !ok ==> opens == old(opens)
      ensures ok && s in old(opens) ==>
        opens == old(opens)[s := old(opens)[s].(openCnt := old(opens)[s].openCnt + 1)]
      ensures ok && s !in old(opens) ==> s in disk && opens == old(opens)[s := OpenInode(1, false, disk[s])]
    {
      if s in opens {
        OpenKeeps(Marks(), disk, opens, dir, s, opens[s].(openCnt := opens[s].openCnt + 1));
        opens := opens[s := opens[s].(openCnt := opens[s].openCnt + 1)];
        return true;
      }
      if !memory {
        return false;
      }
      OpenKeeps(Marks(), disk, opens, dir, s, OpenInode(1, false, disk[s]));
      opens := opens[s := OpenInode(1, false, disk[s])];
      ok := true;
    }

    /** filesys_open: the first entry of that name among those read. The file
        structure needs memory of its own, and without it the inode is closed
        again. */
    method Open(name: seq<Byte>, root: bool, avail: nat, memory: bool, fileMemory: bool) returns (r: Option<nat>)
      requires Valid()
      modifies this`opens, freeMap.bits
      ensures Valid() && Marks() == old(Marks())
      ensures var k := FirstMatch(dir, name, avail);
        r.Some? <==> root && k.Some? && (dir[k.value].sector in old(opens) || memory) && fileMemory
      ensures r.Some? ==>
        FirstMatch(dir, name, avail).Some? && r.value == dir[FirstMatch(dir, name, avail).value].sector
      ensures r.Some? ==> r.value in opens && !opens[r.value].removed
      ensures r.Some? && r.value in old(opens) ==>
        opens == old(opens)[r.value := old(opens)[r.value].(openCnt := old(opens)[r.value].openCnt + 1)]
      ensures r.Some? && r.value !in old(opens) ==>
        r.value in disk && opens == old(opens)[r.value := OpenInode(1, false, disk[r.value])]
      ensures r.None? ==> opens == old(opens)
    {
      hide Consistent, FirstMatch, NewMarks;
      var k := FirstMatch(dir, name, avail);
      if !root || k.None? {
        return None;
      }
      EntryLive(Marks(), disk, opens, dir, k.value);
      OpenCounts(Marks(), disk, opens, dir);
      var s := dir[k.value].sector;
      var ok := InodeOpen(s, memory);
      if !ok {
        return None;
      }
      EntryLive(Marks(), disk, opens, dir, k.value);
      if !fileMemory {
        Close(s);
        assert s in old(opens) ==> opens[s] == old(opens)[s];
        return None;
      }
      r := Some(s);
    }

    /** inode_close: the last close of a removed file, and only that, frees
        the file's sectors, all of which are still marked. */
    method Close(s: nat)
      requires Valid() && s in opens
      modifies this`opens, freeMap.bits
      ensures Valid()
      ensures old(opens)[s].openCnt > 1 ==>
        opens == old(opens)[s := old(opens)[s].(openCnt := old(opens)[s].openCnt - 1)]
      ensures old(opens)[s].openCnt == 1 ==> opens == old(opens) - {s}
      ensures old(opens)[s].openCnt == 1 && old(opens)[s].removed ==>
        NewMarks(Marks(), old(Marks()), s, old(opens)[s].data)
      ensures !(old(opens)[s].openCnt == 1 && old(opens)[s].removed) ==> Marks() == old(Marks())
    {
      var o := opens[s];
      if o.openCnt > 1 {
        OpenKeeps(Marks(), disk, opens, dir, s, o.(openCnt := o.openCnt - 1));
        opens := opens[s := o.(openCnt := o.openCnt - 1)];
        return;
      }
      CloseKeeps(Marks(), disk, opens, dir, s);
      opens := opens - {s};
      if o.removed {
        FreeFile(s, o.data, old(opens));
      }
    }

    /** Both calls of free_map_release in inode_close. */
    method FreeFile(s: nat, d: DiskInode, ghost before: Opens)
      requires Valid() && Consistent(Marks(), disk, before, dir)
      requires s in before && before[s].data == d && opens == before - {s} && !IsLive(s)
      modifies freeMap.bits
      ensures Valid()
      ensures NewMarks(Marks(), old(Marks()), s, d)
    {
      hide Disjoint, OpensOk, DirOk, Live, Consistent;
      ghost var u := Marks();
      assert Held(u, s, d) && s in disk && disk[s] == d by { HeldIfLive(u, disk, before, dir, s); }
      LiveOnDisk(u, disk, opens, dir);
      forall t, x | IsLive(t) && Owns(s, d, x)
        ensures !Owns(t, disk[t], x)
      {
        OtherFile(u, disk, before, dir, s, t, x);
      }
      assert Owns(s, d, s);
      ReleaseKeeps(u, disk, opens, dir, s, 1);
      Release(s, 1);
      ghost var n := SectorCnt(d.length);
      forall t, x | IsLive(t) && d.start <= x < d.start + n
        ensures !Owns(t, disk[t], x)
      {
        assert Owns(s, d, x);
      }
      ReleaseKeeps(Marks(), disk, opens, dir, d.start, n);
      Release(d.start, SectorCnt(d.length));
    }

    /** filesys_remove. `written` says whether the erased entry could be
        written. A file that is open elsewhere only loses its name; one that
        is not is freed at once. */
    method Remove(name: seq<Byte>, root: bool, avail: nat, memory: bool, written: bool) returns (ok: bool)
      requires Valid()
      modifies this`opens, this`dir, freeMap.bits
      ensures Valid()
      ensures var k := FirstMatch(old(dir), name, avail);
        ok <==> root && k.Some? && (old(dir)[k.value].sector in old(opens) || memory) && written
      ensures !ok ==> dir == old(dir) && opens == old(opens) && Marks() == old(Marks())
      ensures ok ==> Some(dir) == ClearSlot(old(dir), name, avail, true)
      ensures ok ==> var s := old(dir)[FirstMatch(old(dir), name, avail).value].sector;
        if s in old(opens) then
          Marks() == old(Marks()) && opens == old(opens)[s := old(opens)[s].(removed := true)]
        else
          opens == old(opens) && s in disk && s >= 0 && NewMarks(Marks(), old(Marks()), s, disk[s])
    {
      hide Consistent, NewMarks, FirstMatch;
      var k := FirstMatch(dir, name, avail);
      if !root || k.None? {
        return false;
      }
      EntryLive(Marks(), disk, opens, dir, k.value);
      OpenCounts(Marks(), disk, opens, dir);
      var s := dir[k.value].sector;
      ok := InodeOpen(s, memory);
      if !ok {
        return;
      }
      if written {
        UnlinkKeeps(Marks(), disk, opens, dir, k.value);
        dir := dir[k.value := dir[k.value].(inUse := false)];
        opens := opens[s := opens[s].(removed := true)];
      } else {
        ok := false;
      }
      assert opens[s].openCnt > 0;
      Close(s);
      if s in old(opens) {
        assert opens == old(opens)[s := opens[s]];
      } else {
        assert opens == old(opens);
      }
    }
  }

  /** An entry in use points to a live file that is not marked removed. */
  lemma EntryLive(u: seq<bool>, disk: Disk, opens: Opens, dir: Slots, k: nat)
    requires Consistent(u, disk, opens, dir) && k < |dir| && dir[k].inUse
    ensures var s := dir[k].sector; s >= 0 && Live(opens, dir, s) && (s in opens ==> !opens[s].removed)
  {
    assert InDir(dir, dir[k].sector);
  }

  lemma SectorIrrelevant(dir: Slots, name: seq<Byte>, s: int, avail1: nat, avail2: nat, written: bool)
    ensures AddSlot(dir, name, s, avail1, avail2, written).Some? <==>
            AddSlot(dir, name, 0, avail1, avail2, written).Some?
  {
  }

  lemma OpenCounts(u: seq<bool>, disk: Disk, opens: Opens, dir: Slots)
    requires Consistent(u, disk, opens, dir)
    ensures forall s :: s in opens ==> s in disk && opens[s].openCnt > 0 && opens[s].data == disk[s]
  {
  }

  /** The slots of a new root directory. */
  function NoEntries(): Slots {
    seq(16, _ => Slot(0, [], false))
  }

  /** The two system files of a fresh file system. */
  lemma FreshConsistent(u: seq<bool>, v: seq<bool>, w: seq<bool>, a: DiskInode, b: DiskInode)
    requires |u| >= 2 && u[0] && u[1]
    requires Grown(u, v, a.start, SectorCnt(a.length)) && Grown(v, w, b.start, SectorCnt(b.length))
    ensures Consistent(w, map[0 := a, 1 := b], map[], NoEntries())
  {
    var disk: Disk := map[0 := a, 1 := b];
    assert w[0] && w[1];
    forall x: nat
      ensures Owns(0, a, x) ==> x < |v| && v[x]
      ensures Owns(1, b, x) ==> x == 1 || (x < |v| && !v[x])
      ensures !(Owns(0, a, x) && x == 1)
    {
      assert u[1];
    }
    assert Disjoint(0, a, 1, b) && Disjoint(1, b, 0, a);
    assert forall s :: Live(map[], NoEntries(), s) <==> s == 0 || s == 1;
  }

  /** The first run of free sectors starts behind the two inodes. */
  lemma FirstFit(u: seq<bool>, i: nat, cnt: nat)
    requires |u| >= 2 && u[0] && u[1] && (forall k :: 2 <= k < |u| ==> !u[k])
    requires cnt > 0 && Run(u, i, cnt, false) && (forall j: nat :: j < i ==> !Run(u, j, cnt, false))
    ensures i == 2
  {
    assert i != 0 && i != 1;
    assert Run(u, 2, cnt, false);
  }

  /** do_format and the mount after it: the free map's file and a root
      directory of 16 entries, or null where the C code panics. */
  method Format(dev: Device) returns (fs: FileSys?)
    requires |dev.sectors| >= 2
    ensures fs != null ==> fs.Valid() && fs.dev == dev && fs.dir == NoEntries() && fs.opens == map[]
    ensures var n := |dev.sectors|; var k := SectorCnt((n + 31) / 32 * 4);
      && (fs == null <==> k + 3 > n)
      && (fs != null ==>
           && fs.disk == map[0 := DiskInode(2, (n + 31) / 32 * 4), 1 := DiskInode(2 + k, 16 * 20)]
           && |fs.dir| * 20 == fs.disk[1].length && (forall i :: 0 <= i < |fs.dir| ==> !fs.dir[i].inUse)
           && (forall x :: 0 <= x < n ==> (fs.Marks()[x] <==> x < k + 3)))
  {
    hide Consistent, Filled;
    var n := |dev.sectors|;
    var freeMap := InitFreeMap(n);
    ghost var u := freeMap.Contents();
    var length := (n + 31) / 32 * 4;
    var start := freeMap.ScanAndFlip(0, SectorCnt(length), false);
    if start.None? {
      assert !Run(u, 2, SectorCnt(length), false);
      return null;
    }
    FirstFit(u, start.value, SectorCnt(length));
    ghost var v := freeMap.Contents();
    var rootStart := freeMap.ScanAndFlip(0, SectorCnt(16 * 20), false);
    SecondFit(u, v, SectorCnt(length));
    if rootStart.None? {
      assert !Run(v, 2 + SectorCnt(length), 1, false);
      return null;
    }
    assert !v[rootStart.value];
    FreshConsistent(u, v, freeMap.Contents(), DiskInode(2, length), DiskInode(rootStart.value, 16 * 20));
    var disk := map[0 := DiskInode(2, length), 1 := DiskInode(rootStart.value, 16 * 20)];
    fs := new FileSys(freeMap, dev, disk, NoEntries());
  }

  /** free_map_init */
  method InitFreeMap(n: nat) returns (freeMap: Bitmap)
    requires n >= 2
    ensures freeMap.Valid() && freeMap.bitCnt == n && fresh(freeMap) && fresh(freeMap.bits)
    ensures var u := freeMap.Contents(); u[0] && u[1] && forall k :: 2 <= k < n ==> !u[k]
  {
    freeMap := new Bitmap(n);
    freeMap.Mark(0);
    freeMap.Mark(1);
  }

  lemma SecondFit(u: seq<bool>, v: seq<bool>, cnt: nat)
    requires |u| >= 2 && u[0] && u[1] && (forall k :: 2 <= k < |u| ==> !u[k])
    requires Grown(u, v, 2, cnt)
    ensures forall k :: 0 <= k < |v| && !v[k] ==> 2 + cnt <= k
    ensures 2 + cnt < |v| ==> Run(v, 2 + cnt, 1, false)
  {
  }

  lemma HeldIfLive(u: seq<bool>, disk: Disk, opens: Opens, dir: Slots, s: nat)
    requires Consistent(u, disk, opens, dir) && s in opens
    ensures s in disk && Held(u, s, disk[s]) && opens[s].data == disk[s]
  {
  }

  /** A file closed for good shares no sector with the files still live. */
  lemma OtherFile(u: seq<bool>, disk: Disk, opens: Opens, dir: Slots, s: nat, t: nat, x: nat)
    requires Consistent(u, disk, opens, dir) && s in opens
    requires Live(opens - {s}, dir, t) && !Live(opens - {s}, dir, s)
    ensures s in disk && t in disk && (Owns(s, disk[s], x) ==> !Owns(t, disk[t], x))
  {
    assert Live(opens, dir, t) && Live(opens, dir, s) && s != t;
    assert Disjoint(s, disk[s], t, disk[t]);
  }

  /** inode_write_at on an open file: its bytes from `offset` on become those
      of the buffer, as many as were written; its other bytes, every byte of
      every other live file and every inode stay as they are. */
  method WriteFile(fs: FileSys, inode: Inode, s: nat, buffer: seq<Byte>, size: int, offset: nat, memory: bool)
    returns (written: int)
    requires fs.Valid() && s in fs.opens && size <= |buffer|
    requires inode.start == fs.opens[s].data.start && inode.length == fs.opens[s].data.length
    modifies fs.dev
    ensures fs.Valid() && 0 <= written <= |buffer| && |fs.dev.sectors| == |old(fs.dev.sectors)|
    ensures written == if inode.denyWriteCnt != 0 then 0 else Transferred(inode.length, size, offset, memory)
    ensures var d := fs.opens[s].data; OnDevice(fs.dev.sectors, d) && forall i: nat :: i < d.length ==>
      FileByte(fs.dev.sectors, d, i) ==
      if offset <= i < offset + written then buffer[i - offset] else FileByte(old(fs.dev.sectors), d, i)
    ensures forall t: nat :: fs.IsLive(t) ==>
      && t in fs.disk && OnDevice(fs.dev.sectors, fs.disk[t])
      && t < |fs.dev.sectors| && fs.dev.sectors[t] == old(fs.dev.sectors[t])
    ensures forall t: nat, i: nat :: fs.IsLive(t) && t != s && i < fs.disk[t].length ==>
      FileByte(fs.dev.sectors, fs.disk[t], i) == FileByte(old(fs.dev.sectors), fs.disk[t], i)
  {
    hide Transferred, Live, Consistent, OnlyData;
    ghost var d, u := fs.opens[s].data, fs.Marks();
    OpenOnDevice(u, fs.disk, fs.opens, fs.dir, s);
    written := WriteAt(fs.dev, inode, buffer, size, offset, memory);
    TransferInside(inode.length, size, offset, memory);
    PatchInData(old(fs.dev.sectors), fs.dev.sectors, d, offset, buffer[..written]);
    forall t: nat | fs.IsLive(t)
      ensures t in fs.disk && t < |fs.dev.sectors| && fs.dev.sectors[t] == old(fs.dev.sectors[t])
      ensures OnDevice(fs.dev.sectors, fs.disk[t])
      ensures t != s ==> forall i: nat :: i < fs.disk[t].length ==>
        FileByte(fs.dev.sectors, fs.disk[t], i) == FileByte(old(fs.dev.sectors), fs.disk[t], i)
    {
      OthersKept(u, fs.disk, fs.opens, fs.dir, s, t, old(fs.dev.sectors), fs.dev.sectors);
    }
  }

  // -------------------------------------------------------- whole runs

  /** A call into the file system, with the outcome of what it depends on. */
  datatype Call =
    | CreateCall(name: seq<Byte>, size: nat, root: bool, persisted1: bool, memory: bool, persisted2: bool,
                 avail1: nat, avail2: nat, written: bool)
    | OpenCall(name: seq<Byte>, root: bool, avail: nat, memory: bool, fileMemory: bool)
    | RemoveCall(name: seq<Byte>, root: bool, avail: nat, memory: bool, written: bool)
    | CloseCall(sector: nat)
    | WriteCall(sector: nat, buffer: seq<Byte>, offset: nat, memory: bool)

  /** The file system at one point of a run. */
  datatype Snapshot = Snapshot(marks: seq<bool>, disk: Disk, opens: Opens, dir: Slots, sectors: seq<Sector>)

  ghost function Openers(sn: Snapshot, s: nat): nat {
    if s in sn.opens then sn.opens[s].openCnt else 0
  }

  /** A consistent file system whose free map covers the device. */
  ghost predicate Sound(sn: Snapshot) {
    Consistent(sn.marks, sn.disk, sn.opens, sn.dir) && |sn.sectors| == |sn.marks|
  }

  /** The bytes of an open file. */
  ghost function Contents(sn: Snapshot, s: nat): seq<Byte>
    requires Sound(sn) && s in sn.opens
  {
    OpenOnDevice(sn.marks, sn.disk, sn.opens, sn.dir, s);
    Bytes(sn.sectors, sn.opens[s].data)
  }

  /** What a call makes of the contents `c` of file `s`. */
  ghost function After(call: Call, s: nat, c: seq<Byte>): seq<Byte> {
    match call
    case WriteCall(t, buffer, offset, memory) =>
      var k := Transferred(|c|, |buffer|, offset, memory);
      if t == s && 0 < k <= |buffer| && offset + k <= |c| then c[..offset] + buffer[..k] + c[offset + k..] else c
    case _ => c
  }

  /** What each call does to names, openers and free sectors. */
  ghost predicate Performs(call: Call, a: Snapshot, b: Snapshot) {
    match call
    case CreateCall(name, size, root, persisted1, memory, persisted2, avail1, avail2, written) =>
      && b.opens == a.opens
      && if root && persisted1 && memory && persisted2 && RoomFor(a.marks, SectorCnt(size))
            && AddSlot(a.dir, name, 0, avail1, avail2, written).Some?
         then exists s: nat :: NewFile(a, b, s, size) && Some(b.dir) == AddSlot(a.dir, name, s, avail1, avail2, written)
         else b.dir == a.dir
    case OpenCall(name, root, avail, memory, fileMemory) =>
      var k := FirstMatch(a.dir, name, avail);
      if root && k.Some? && (a.dir[k.value].sector in a.opens || memory) && fileMemory then
        var s := a.dir[k.value].sector;
        s in a.disk && b == a.(opens := a.opens[s := OpenInode(Openers(a, s) + 1, false, a.disk[s])])
      else b == a
    case RemoveCall(name, root, avail, memory, written) =>
      var k := FirstMatch(a.dir, name, avail);
      if root && k.Some? && (a.dir[k.value].sector in a.opens || memory) && written then
        var s := a.dir[k.value].sector;
        && Some(b.dir) == ClearSlot(a.dir, name, avail, true) && b.disk == a.disk && b.sectors == a.sectors
        && if s in a.opens then b.marks == a.marks && b.opens == a.opens[s := a.opens[s].(removed := true)]
           else s in a.disk && NewMarks(b.marks, a.marks, s, a.disk[s]) && b.opens == a.opens
      else b == a
    case CloseCall(s) =>
      if s !in a.opens then b == a
      else
        && b.disk == a.disk && b.dir == a.dir && b.sectors == a.sectors
        && b.opens == (if Openers(a, s) > 1 then a.opens[s := a.opens[s].(openCnt := Openers(a, s) - 1)]
                       else a.opens - {s})
        && if Openers(a, s) == 1 && a.opens[s].removed then NewMarks(b.marks, a.marks, s, a.opens[s].data)
           else b.marks == a.marks
    case WriteCall(_, _, _, _) => b == a.(sectors := b.sectors)
  }

  /** A file of `size` zero bytes with its inode in the first free sector, all
      of its sectors free before. */
  ghost predicate NewFile(a: Snapshot, b: Snapshot, s: nat, size: nat) {
    && FirstFree(a.marks, 1, s) && !Live(a.opens, a.dir, s) && s in b.disk && b.disk[s].length == size
    && NewMarks(a.marks, b.marks, s, b.disk[s]) && ZeroData(b.sectors, b.disk[s])
  }

  /** What a call may do to a file's openers: closing it takes one away, and
      nothing else takes any. An open file keeps its inode, and if it is not a
      system file, its contents but for what is written to it. */
  ghost predicate Logs(call: Call, a: Snapshot, b: Snapshot) {
    && Sound(a) && Sound(b) && Performs(call, a, b)
    && (forall s :: Openers(b, s) >= Openers(a, s) - (if call == CloseCall(s) then 1 else 0))
    && (forall s :: s in a.opens && s in b.opens ==> b.opens[s].data == a.opens[s].data)
    && (forall s :: s in a.opens && s in b.opens && !System(s) ==> Contents(b, s) == After(call, s, Contents(a, s)))
  }

  /** `log` is the history of a run of `calls`. */
  ghost predicate History(calls: seq<Call>, log: seq<Snapshot>) {
    && |log| == |calls| + 1
    && (forall i :: 0 <= i < |log| ==> Sound(log[i]))
    && (forall i :: 0 <= i < |calls| ==> Logs(calls[i], log[i], log[i + 1]))
  }

  /** How often `s` is closed by the calls from `i` up to `j`. */
  ghost function Closes(calls: seq<Call>, s: nat, i: nat, j: nat): nat
    requires i <= j <= |calls|
    decreases j - i
  {
    if i == j then 0 else Closes(calls, s, i, j - 1) + (if calls[j - 1] == CloseCall(s) then 1 else 0)
  }

  /** The contents `c` of file `s` after the calls from `i` up to `j`: the
      writes to it, one on top of the other. */
  ghost function Replay(calls: seq<Call>, s: nat, i: nat, j: nat, c: seq<Byte>): seq<Byte>
    requires i <= j <= |calls|
    decreases j - i
  {
    if i == j then c else After(calls[j - 1], s, Replay(calls, s, i, j - 1, c))
  }

  /** From any point of a run on, a file that is closed less often than it has
      openers there is still open, with the same inode and all its sectors
      still marked and its own, removed or not. Its contents are what the
      writes to it have made of those it had, whatever else was called. */
  lemma {:induction false} KeptUntilLastClose(calls: seq<Call>, log: seq<Snapshot>, s: nat, i: nat, j: nat)
    requires History(calls, log) && i <= j <= |calls|
    requires Closes(calls, s, i, j) < Openers(log[i], s)
    ensures s in log[i].opens && s in log[j].opens
    ensures Openers(log[j], s) >= Openers(log[i], s) - Closes(calls, s, i, j)
    ensures s in log[j].disk && log[j].opens[s].data == log[i].opens[s].data == log[j].disk[s]
    ensures Held(log[j].marks, s, log[j].disk[s])
    ensures forall t :: Live(log[j].opens, log[j].dir, t) && t != s ==>
      t in log[j].disk && Disjoint(s, log[j].disk[s], t, log[j].disk[t])
    ensures !System(s) ==> Contents(log[j], s) == Replay(calls, s, i, j, Contents(log[i], s))
    decreases j - i
  {
    hide Held, Disjoint, Contents, After, Sound;
    if i < j {
      KeptUntilLastClose(calls, log, s, i, j - 1);
      assert Logs(calls[j - 1], log[j - 1], log[j - 1 + 1]);
      assert Openers(log[j], s) > 0;
      OpenFileKept(log[j], s);
    } else {
      OpenFileKept(log[i], s);
    }
  }

  lemma OpenFileKept(sn: Snapshot, s: nat)
    requires Sound(sn) && s in sn.opens
    ensures s in sn.disk && sn.opens[s].data == sn.disk[s] && Held(sn.marks, s, sn.disk[s])
    ensures forall t :: Live(sn.opens, sn.dir, t) && t != s ==> t in sn.disk && Disjoint(s, sn.disk[s], t, sn.disk[t])
  {
  }

  ghost function Snap(fs: FileSys): Snapshot
    reads fs, fs.freeMap.bits, fs.dev
    requires fs.freeMap.Valid()
  {
    Snapshot(fs.Marks(), fs.disk, fs.opens, fs.dir, fs.dev.sectors)
  }

  /** Every run of calls, memory running out at any point of any of them, keeps
      ownership exclusive and every owned sector marked at each of its points;
      with KeptUntilLastClose, files keep their sectors until their last
      close. */
  method Execute(fs: FileSys, calls: seq<Call>) returns (ghost log: seq<Snapshot>)
    requires fs.Valid()
    modifies fs, fs.freeMap.bits, fs.dev
    ensures fs.Valid() && History(calls, log)
    ensures log[0] == old(Snap(fs)) && log[|calls|] == Snap(fs)
  {
    hide Consistent, Logs;
    log := [Snap(fs)];
    var i := 0;
    while i < |calls|
      invariant 0 <= i <= |calls| && fs.Valid() && |log| == i + 1
      invariant log[0] == old(Snap(fs)) && log[i] == Snap(fs)
      invariant forall k :: 0 <= k <= i ==> Sound(log[k])
      invariant forall k :: 0 <= k < i ==> Logs(calls[k], log[k], log[k + 1])
    {
      Step(fs, calls[i]);
      log := log + [Snap(fs)];
      i := i + 1;
    }
  }

  method Step(fs: FileSys, call: Call)
    requires fs.Valid()
    modifies fs, fs.freeMap.bits, fs.dev
    ensures fs.Valid() && Logs(call, old(Snap(fs)), Snap(fs))
  {
    hide Consistent, NewMarks, Held, FirstMatch, Contents, Bytes, After;
    OpenCounts(fs.Marks(), fs.disk, fs.opens, fs.dir);
    OpenIsLive(fs);
    ghost var a := Snap(fs);
    match call {
      case CreateCall(_, _, _, _, _, _, _, _, _) =>
        CreateStep(fs, call);
      case OpenCall(name, root, avail, memory, fileMemory) =>
        var _ := fs.Open(name, root, avail, memory, fileMemory);
        SameContents(a, Snap(fs), call);
      case RemoveCall(_, _, _, _, _) =>
        RemoveStep(fs, call);
      case CloseCall(s) =>
        if s in fs.opens {
          fs.Close(s);
        }
        SameContents(a, Snap(fs), call);
      case WriteCall(s, buffer, offset, memory) =>
        WriteStep(fs, s, buffer, offset, memory);
    }
  }

  method CreateStep(fs: FileSys, call: Call)
    requires fs.Valid() && call.CreateCall?
    modifies fs, fs.freeMap.bits, fs.dev
    ensures fs.Valid() && Logs(call, old(Snap(fs)), Snap(fs))
  {
    hide Consistent, NewMarks, Grown, Held, AddSlot, Contents, Bytes, After;
    OpenIsLive(fs);
    ghost var a := Snap(fs);
    var _ := fs.Create(call.name, call.size, call.root, call.persisted1, call.memory, call.persisted2,
                       call.avail1, call.avail2, call.written);
    CreateContents(a, Snap(fs), call);
  }

  method RemoveStep(fs: FileSys, call: Call)
    requires fs.Valid() && call.RemoveCall?
    modifies fs, fs.freeMap.bits
    ensures fs.Valid() && Logs(call, old(Snap(fs)), Snap(fs))
  {
    hide Consistent, NewMarks, Held, ClearSlot, FirstMatch, Contents, Bytes, After;
    OpenCounts(fs.Marks(), fs.disk, fs.opens, fs.dir);
    ghost var a := Snap(fs);
    var _ := fs.Remove(call.name, call.root, call.avail, call.memory, call.written);
    SameContents(a, Snap(fs), call);
  }

  method WriteStep(fs: FileSys, s: nat, buffer: seq<Byte>, offset: nat, memory: bool)
    requires fs.Valid()
    modifies fs.dev
    ensures fs.Valid() && Logs(WriteCall(s, buffer, offset, memory), old(Snap(fs)), Snap(fs))
  {
    hide Consistent, Contents, Bytes, After;
    OpenCounts(fs.Marks(), fs.disk, fs.opens, fs.dir);
    OpenIsLive(fs);
    ghost var a := Snap(fs);
    if s in fs.opens {
      var inode := new Inode(fs.opens[s].data.start, fs.opens[s].data.length);
      var written := WriteFile(fs, inode, s, buffer, |buffer|, offset, memory);
      WriteContents(a, Snap(fs), s, buffer, offset, memory, written);
    } else {
      SameContents(a, Snap(fs), WriteCall(s, buffer, offset, memory));
    }
  }

  lemma SameContents(a: Snapshot, b: Snapshot, call: Call)
    requires Sound(a) && Sound(b) && b.sectors == a.sectors
    requires forall s :: s in a.opens && s in b.opens ==> b.opens[s].data == a.opens[s].data
    requires call.WriteCall? ==> call.sector !in a.opens
    ensures forall s :: s in a.opens && s in b.opens ==> Contents(b, s) == After(call, s, Contents(a, s))
  {
    hide Consistent, Bytes;
  }

  lemma CreateContents(a: Snapshot, b: Snapshot, call: Call)
    requires Sound(a) && Sound(b) && call.CreateCall? && b.opens == a.opens
    requires forall s :: s in a.opens && !System(s) ==>
      s in b.disk && OnDevice(a.sectors, b.disk[s]) && OnDevice(b.sectors, b.disk[s]) &&
      Bytes(b.sectors, b.disk[s]) == Bytes(a.sectors, b.disk[s])
    ensures forall s :: s in a.opens && !System(s) ==> Contents(b, s) == After(call, s, Contents(a, s))
  {
    hide Consistent, Bytes;
    forall s | s in a.opens && !System(s)
      ensures Contents(b, s) == After(call, s, Contents(a, s))
    {
      OpenOnDevice(b.marks, b.disk, b.opens, b.dir, s);
    }
  }

  lemma PatchedBytes(before: seq<Sector>, after: seq<Sector>, d: DiskInode, buffer: seq<Byte>, offset: nat, k: nat)
    requires OnDevice(before, d) && OnDevice(after, d) && k <= |buffer| && (k == 0 || offset + k <= d.length)
    requires forall i: nat :: i < d.length ==>
      FileByte(after, d, i) == if offset <= i < offset + k then buffer[i - offset] else FileByte(before, d, i)
    ensures var c := Bytes(before, d);
      Bytes(after, d) == if k == 0 then c else c[..offset] + buffer[..k] + c[offset + k..]
  {
    hide FileByte, OnDevice;
  }

  lemma WriteContents(a: Snapshot, b: Snapshot, s: nat, buffer: seq<Byte>, offset: nat, memory: bool, written: int)
    requires Sound(a) && Sound(b) && b == a.(sectors := b.sectors) && s in a.opens
    requires var d := a.opens[s].data;
      && written == Transferred(d.length, |buffer|, offset, memory) && 0 <= written <= |buffer|
      && OnDevice(a.sectors, d) && OnDevice(b.sectors, d)
      && forall i: nat :: i < d.length ==>
           FileByte(b.sectors, d, i) ==
           if offset <= i < offset + written then buffer[i - offset] else FileByte(a.sectors, d, i)
    requires forall t: nat :: Live(a.opens, a.dir, t) ==>
      t in a.disk && OnDevice(a.sectors, a.disk[t]) && OnDevice(b.sectors, a.disk[t])
    requires forall t: nat, i: nat :: Live(a.opens, a.dir, t) && t != s && i < a.disk[t].length ==>
      FileByte(b.sectors, a.disk[t], i) == FileByte(a.sectors, a.disk[t], i)
    ensures forall t :: t in a.opens ==>
      Contents(b, t) == After(WriteCall(s, buffer, offset, memory), t, Contents(a, t))
  {
    hide Consistent, Transferred, FileByte, OnDevice, Bytes, Live;
    forall t | t in a.opens
      ensures Contents(b, t) == After(WriteCall(s, buffer, offset, memory), t, Contents(a, t))
    {
      var d := a.opens[t].data;
      OpenOnDevice(a.marks, a.disk, a.opens, a.dir, t);
      if t == s {
        TransferInside(d.length, |buffer|, offset, memory);
        PatchedBytes(a.sectors, b.sectors, d, buffer, offset, written);
      } else {
        assert Bytes(b.sectors, d) == Bytes(a.sectors, d);
      }
    }
  }

  lemma OpenIsLive(fs: FileSys)
    ensures forall s :: s in fs.opens ==> fs.IsLive(s)
  {
  }
}
