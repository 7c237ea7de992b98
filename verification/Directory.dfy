/** Directories of src/filesys/directory.c: 20-byte entries in an inode's data,
    read and written through inode_read_at and inode_write_at. */
module Directories {
  import opened Options
  import opened InodeIo

  /** struct dir_entry */
  datatype Slot = Slot(sector: int, name: seq<Byte>, inUse: bool)

  /** A C string: the bytes before the first null. */
  function CString(s: seq<Byte>): (t: seq<Byte>)
    ensures |t| <= |s| && 0 !in t
  {
    if s == [] || s[0] == 0 then [] else [s[0]] + CString(s[1..])
  }

  lemma {:induction false} CStringOf(name: seq<Byte>, rest: seq<Byte>)
    requires 0 !in name
    ensures CString(name + [0] + rest) == name
  {
    if name != [] {
      assert (name + [0] + rest)[1..] == name[1..] + [0] + rest;
      assert name == [name[0]] + name[1..];
      CStringOf(name[1..], rest);
    }
  }

  /** A little-endian 32-bit word. */
  function Word(b0: int, b1: int, b2: int, b3: int): int {
    b0 + 256 * b1 + 65536 * b2 + 16777216 * b3
  }

  /** The entry that 20 bytes stand for. */
  function Decode(b: seq<Byte>): Slot
    requires |b| == 20
  {
    Slot(Word(b[0], b[1], b[2], b[3]), CString(b[4..19]), b[19] != 0)
  }

  /** Byte `i` of a little-endian sector number. */
  function SectorByte(sector: int, i: int): Byte {
    if i == 0 then sector % 256
    else if i == 1 then sector / 256 % 256
    else if i == 2 then sector / 256 / 256 % 256
    else sector / 256 / 256 / 256 % 256
  }

  lemma SectorBytes(sector: int)
    requires 0 <= sector < 0x1_0000_0000
    ensures Word(SectorByte(sector, 0), SectorByte(sector, 1), SectorByte(sector, 2), SectorByte(sector, 3)) == sector
  {
    var q1 := sector / 256;
    var q2 := q1 / 256;
    var q3 := q2 / 256;
    assert sector == 256 * q1 + sector % 256 && q1 == 256 * q2 + q1 % 256 && q2 == 256 * q3 + q2 % 256;
    assert q3 % 256 == q3;
  }

  // --------------------------------------------- slots as a finite map

  predicate Matches(s: Slot, name: seq<Byte>) {
    s.inUse && s.name == name
  }

  /** The slots hold each name of `m` once, with its sector. */
  ghost predicate Refines(slots: seq<Slot>, m: map<seq<Byte>, int>) {
    && (forall k :: 0 <= k < |slots| && slots[k].inUse ==>
         slots[k].name in m && m[slots[k].name] == slots[k].sector)
    && (forall j, k :: 0 <= j < k < |slots| && slots[j].inUse && slots[k].inUse ==> slots[j].name != slots[k].name)
    && (forall x :: x in m ==> exists k :: 0 <= k < |slots| && Matches(slots[k], x))
  }

  /** What lookup finds when it can read `avail` slots. */
  function FirstMatch(slots: seq<Slot>, name: seq<Byte>, avail: nat): (r: Option<nat>)
    ensures r.Some? ==> r.value < |slots| && r.value < avail && Matches(slots[r.value], name)
    ensures forall j :: 0 <= j < |slots| && j < avail && (r.Some? ==> j < r.value) ==> !Matches(slots[j], name)
  {
    MatchFrom(slots, name, avail, 0)
  }

  function MatchFrom(slots: seq<Slot>, name: seq<Byte>, avail: nat, at: nat): (r: Option<nat>)
    requires at <= |slots|
    ensures r.Some? ==> at <= r.value < |slots| && r.value < avail && Matches(slots[r.value], name)
    ensures forall j :: at <= j < |slots| && j < avail && (r.Some? ==> j < r.value) ==> !Matches(slots[j], name)
    decreases |slots| - at
  {
    if at == |slots| || at >= avail then None
    else if Matches(slots[at], name) then Some(at)
    else MatchFrom(slots, name, avail, at + 1)
  }

  /** The slot dir_add picks when it can read `avail` slots: the first one not
      in use, or the one where reading stops. */
  function FreeIndex(slots: seq<Slot>, avail: nat): (k: nat)
    ensures k <= |slots| && k <= avail
    ensures k < |slots| && k < avail ==> !slots[k].inUse
    ensures forall j :: 0 <= j < k ==> slots[j].inUse
  {
    FreeFrom(slots, avail, 0)
  }

  function FreeFrom(slots: seq<Slot>, avail: nat, at: nat): (k: nat)
    requires at <= |slots| && at <= avail
    ensures at <= k <= |slots| && k <= avail
    ensures k < |slots| && k < avail ==> !slots[k].inUse
    ensures forall j :: at <= j < k ==> slots[j].inUse
    decreases |slots| - at
  {
    if at < |slots| && at < avail && slots[at].inUse then FreeFrom(slots, avail, at + 1) else at
  }

  lemma FreeIndexUnique(slots: seq<Slot>, avail: nat, k: nat)
    requires k <= |slots| && k <= avail
    requires k < |slots| && k < avail ==> !slots[k].inUse
    requires forall j :: 0 <= j < k ==> slots[j].inUse
    ensures k == FreeIndex(slots, avail)
  {
  }

  /** What dir_add demands of a name. */
  predicate ValidName(name: seq<Byte>) {
    0 < |name| <= 14
  }

  /** The slots after dir_add, if it succeeds: its searches can read `avail1`
      and `avail2` slots, and `written` says whether the entry could be
      written. */
  function AddSlot(slots: seq<Slot>, name: seq<Byte>, sector: int, avail1: nat, avail2: nat, written: bool):
      (r: Option<seq<Slot>>)
    ensures r.Some? ==> |r.value| == |slots|
  {
    var k := FreeIndex(slots, avail2);
    if ValidName(name) && FirstMatch(slots, name, avail1).None? && k < |slots| && written
    then Some(slots[k := Slot(sector, name, true)]) else None
  }

  /** The slots after dir_remove, if it succeeds. */
  function ClearSlot(slots: seq<Slot>, name: seq<Byte>, avail: nat, written: bool): (r: Option<seq<Slot>>)
    ensures r.Some? ==> |r.value| == |slots|
  {
    var k := FirstMatch(slots, name, avail);
    if k.Some? && written then Some(slots[k.value := slots[k.value].(inUse := false)]) else None
  }

  /** With memory for every read dir_add succeeds exactly for a new name of 1
      to 14 bytes while a slot is free, and takes the first one. */
  lemma AddSucceedsIff(slots: seq<Slot>, name: seq<Byte>, sector: int, avail1: nat, avail2: nat, written: bool)
    requires avail1 >= |slots| && avail2 >= |slots|
    ensures var r := AddSlot(slots, name, sector, avail1, avail2, written);
      && (r.Some? <==> 1 <= |name| <= 14 && written && (forall j :: 0 <= j < |slots| ==> !Matches(slots[j], name))
                       && exists j :: 0 <= j < |slots| && !slots[j].inUse)
      && (r.Some? ==> exists k :: 0 <= k < |slots| && !slots[k].inUse && (forall j :: 0 <= j < k ==> slots[j].inUse)
                                  && r.value == slots[k := Slot(sector, name, true)])
  {
    var k := FreeIndex(slots, avail2);
    assert k < |slots| ==> !slots[k].inUse;
  }

  /** dir_remove succeeds exactly for a name it reads, and clears the first
      such entry. */
  lemma RemoveSucceedsIff(slots: seq<Slot>, name: seq<Byte>, avail: nat, written: bool)
    requires avail >= |slots|
    ensures var r := ClearSlot(slots, name, avail, written);
      && (r.Some? <==> written && exists j :: 0 <= j < |slots| && Matches(slots[j], name))
      && (r.Some? ==> exists k :: 0 <= k < |slots| && Matches(slots[k], name)
                                  && (forall j :: 0 <= j < k ==> !Matches(slots[j], name))
                                  && r.value == slots[k := Slot(slots[k].sector, name, false)])
  {
    var k := FirstMatch(slots, name, avail);
    if k.Some? {
      assert slots[k.value].(inUse := false) == Slot(slots[k.value].sector, name, false);
    }
  }

  /** An entry goes into a free slot and its name is nowhere else: that adds
      one binding. */
  lemma AddRefines(slots: seq<Slot>, m: map<seq<Byte>, int>, k: nat, name: seq<Byte>, sector: int)
    requires Refines(slots, m) && k < |slots| && !slots[k].inUse && name !in m
    ensures Refines(slots[k := Slot(sector, name, true)], m[name := sector])
  {
    var slots', m' := slots[k := Slot(sector, name, true)], m[name := sector];
    forall x | x in m'
      ensures exists j :: 0 <= j < |slots'| && Matches(slots'[j], x)
    {
      if x == name {
        assert Matches(slots'[k], x);
      } else {
        var j :| 0 <= j < |slots| && Matches(slots[j], x);
        assert Matches(slots'[j], x);
      }
    }
  }

  /** Clearing the entry removes its binding. */
  lemma RemoveRefines(slots: seq<Slot>, m: map<seq<Byte>, int>, k: nat)
    requires Refines(slots, m) && k < |slots| && slots[k].inUse
    ensures Refines(slots[k := slots[k].(inUse := false)], m - {slots[k].name})
  {
    var slots', m' := slots[k := slots[k].(inUse := false)], m - {slots[k].name};
    forall x | x in m'
      ensures exists j :: 0 <= j < |slots'| && Matches(slots'[j], x)
    {
      var j :| 0 <= j < |slots| && Matches(slots[j], x);
      assert Matches(slots'[j], x);
    }
    forall j | 0 <= j < |slots'| && slots'[j].inUse
      ensures slots'[j].name in m'
    {
      assert j < k ==> slots[j].name != slots[k].name;
      assert k < j ==> slots[k].name != slots[j].name;
    }
  }

  /** dir_add, when its reads stop after `avail1` slots in the search for the
      name and `avail2` in the search for a free slot, refines the map
      exactly when it has not stopped short of the name or of a free slot.
      A read stops short only for want of memory. */
  lemma AddRefinesIff(slots: seq<Slot>, m: map<seq<Byte>, int>, name: seq<Byte>, sector: int, avail1: nat, avail2: nat)
    requires Refines(slots, m)
    requires forall j :: 0 <= j < |slots| && j < avail1 ==> !Matches(slots[j], name)
    requires FreeIndex(slots, avail2) < |slots|
    ensures name !in m && Refines(slots[FreeIndex(slots, avail2) := Slot(sector, name, true)], m[name := sector])
       <==> (forall j :: avail1 <= j < |slots| ==> !Matches(slots[j], name))
            && (exists j :: 0 <= j < |slots| && j <= avail2 && !slots[j].inUse)
  {
    var k := FreeIndex(slots, avail2);
    NameAbsent(slots, m, name);
    if name !in m {
      if slots[k].inUse {
        OverwriteLoses(slots, m, k, name, sector);
      } else {
        AddRefines(slots, m, k, name, sector);
      }
    }
  }

  lemma NameAbsent(slots: seq<Slot>, m: map<seq<Byte>, int>, name: seq<Byte>)
    requires Refines(slots, m)
    ensures name !in m <==> forall j :: 0 <= j < |slots| ==> !Matches(slots[j], name)
  {
    if name in m {
      assert exists k :: 0 <= k < |slots| && Matches(slots[k], name);
    }
  }

  /** Overwriting a slot in use drops the binding it held. */
  lemma OverwriteLoses(slots: seq<Slot>, m: map<seq<Byte>, int>, k: nat, name: seq<Byte>, sector: int)
    requires Refines(slots, m) && k < |slots| && slots[k].inUse && name !in m
    ensures !Refines(slots[k := Slot(sector, name, true)], m[name := sector])
  {
    var slots' := slots[k := Slot(sector, name, true)];
    var x := slots[k].name;
    forall j | 0 <= j < |slots'|
      ensures !Matches(slots'[j], x)
    {
      assert j < k ==> (slots[j].inUse ==> slots[j].name != slots[k].name);
      assert k < j ==> (slots[j].inUse ==> slots[k].name != slots[j].name);
    }
    assert x in m[name := sector];
  }

  /** The names in use, in slot order. */
  ghost function NamesOf(slots: seq<Slot>): seq<seq<Byte>> {
    if slots == [] then []
    else NamesOf(slots[..|slots| - 1]) + (if slots[|slots| - 1].inUse then [slots[|slots| - 1].name] else [])
  }

  ghost function SetOf<T>(s: seq<T>): set<T> {
    set x | x in s
  }

  lemma {:induction false} NamesOfMember(slots: seq<Slot>, x: seq<Byte>)
    ensures x in NamesOf(slots) <==> exists k :: 0 <= k < |slots| && Matches(slots[k], x)
  {
    if slots != [] {
      var n := |slots| - 1;
      var t := slots[..n];
      NamesOfMember(t, x);
      if k :| 0 <= k < |t| && Matches(t[k], x) {
        assert Matches(slots[k], x);
      }
      if k :| 0 <= k < |slots| && Matches(slots[k], x) {
        assert k < n ==> Matches(t[k], x);
      }
    }
  }

  /** Names in use are different, so they are as many as they are listed. */
  lemma {:induction false} NamesOfSize(slots: seq<Slot>)
    requires forall j, k :: 0 <= j < k < |slots| && slots[j].inUse && slots[k].inUse ==> slots[j].name != slots[k].name
    ensures |SetOf(NamesOf(slots))| == |NamesOf(slots)| <= |slots|
    ensures |NamesOf(slots)| == |slots| <==> forall j :: 0 <= j < |slots| ==> slots[j].inUse
  {
    if slots != [] {
      var n := |slots| - 1;
      var t := slots[..n];
      assert forall j :: 0 <= j < n ==> t[j] == slots[j];
      NamesOfSize(t);
      if slots[n].inUse {
        NamesOfMember(t, slots[n].name);
        assert forall k :: 0 <= k < n ==> !Matches(t[k], slots[n].name);
        assert SetOf(NamesOf(slots)) == SetOf(NamesOf(t)) + {slots[n].name};
      } else {
        assert NamesOf(slots) == NamesOf(t);
      }
    }
  }

  /** The slots in use are as many as the names of the map. */
  lemma InUseCount(slots: seq<Slot>, m: map<seq<Byte>, int>)
    requires Refines(slots, m)
    ensures SetOf(NamesOf(slots)) == m.Keys && |NamesOf(slots)| == |m|
    ensures |m| < |slots| <==> exists j :: 0 <= j < |slots| && !slots[j].inUse
  {
    hide NamesOf, Refines;
    NamesDistinct(slots, m);
    NamesAreKeys(slots, m);
    KeysCounted(NamesOf(slots), m);
  }

  lemma NamesDistinct(slots: seq<Slot>, m: map<seq<Byte>, int>)
    requires Refines(slots, m)
    ensures |SetOf(NamesOf(slots))| == |NamesOf(slots)| <= |slots|
    ensures |NamesOf(slots)| == |slots| <==> forall j :: 0 <= j < |slots| ==> slots[j].inUse
  {
    hide NamesOf;
    NamesOfSize(slots);
  }

  lemma KeysCounted(names: seq<seq<Byte>>, m: map<seq<Byte>, int>)
    requires |SetOf(names)| == |names| && forall x :: x in names <==> x in m
    ensures SetOf(names) == m.Keys && |names| == |m|
  {
    assert SetOf(names) == m.Keys;
  }

  lemma NamesAreKeys(slots: seq<Slot>, m: map<seq<Byte>, int>)
    requires Refines(slots, m)
    ensures forall x :: x in NamesOf(slots) <==> x in m
  {
    hide NamesOf;
    forall x
      ensures x in NamesOf(slots) <==> x in m
    {
      NamesOfMember(slots, x);
      if k :| 0 <= k < |slots| && Matches(slots[k], x) {
        assert slots[k].inUse;
      }
    }
  }

  /** Memory running out in the middle of dir_add: the search for the name
      misses it, and the directory comes to hold it twice. */
  lemma ShortReadDuplicates(x: seq<Byte>, y: seq<Byte>)
    requires x != y
    ensures var slots := [Slot(7, x, true), Slot(8, y, true), Slot(0, [], false)];
      && Refines(slots, map[x := 7, y := 8])
      && (forall j :: 0 <= j < |slots| && j < 1 ==> !Matches(slots[j], y))
      && FreeIndex(slots, 3) == 2
      && Matches(slots[2 := Slot(9, y, true)][1], y) && Matches(slots[2 := Slot(9, y, true)][2], y)
  {
    var slots := [Slot(7, x, true), Slot(8, y, true), Slot(0, [], false)];
    assert Matches(slots[0], x) && Matches(slots[1], y);
    FreeIndexUnique(slots, 3, 2);
  }

  // ------------------------------------------------ slots in the file

  /** The bytes of slot `k` of the file that starts at sector `start`. */
  ghost function SlotBytes(d: seq<Sector>, start: int, k: int): (b: seq<Byte>)
    requires 0 <= start && 0 <= k && 512 * start + 20 * k + 20 <= 512 * |d|
    ensures |b| == 20
    ensures forall i :: 0 <= i < 20 ==> b[i] == At(d, 512 * start + 20 * k + i)
  {
    seq<Byte>(20, i requires 0 <= i < 20 => At(d, 512 * start + 20 * k + i))
  }

  /** The complete slots of a directory of `length` bytes. */
  ghost function SlotsOf(d: seq<Sector>, start: int, length: int): (s: seq<Slot>)
    requires 0 <= start && 0 <= length && 512 * start + length <= 512 * |d|
    ensures |s| == length / 20
    ensures forall k :: 0 <= k < length / 20 ==> s[k] == Decode(SlotBytes(d, start, k))
  {
    seq(length / 20, k requires 0 <= k < length / 20 => Decode(SlotBytes(d, start, k)))
  }

  /** A write of a whole entry replaces one slot; a shorter one, which is at
      the end of the file or empty, replaces none. */
  lemma PatchedSlots(d: seq<Sector>, e: seq<Sector>, start: int, length: int, k: nat, data: seq<Byte>)
    requires 0 <= start && 0 <= length && 512 * start + length <= 512 * |d|
    requires Patched(d, e, 512 * start + 20 * k, data) && |data| <= 20
    requires |data| == 20 ==> k < length / 20
    requires 0 < |data| < 20 ==> k >= length / 20
    ensures SlotsOf(e, start, length) ==
      if |data| == 20 then SlotsOf(d, start, length)[k := Decode(data)] else SlotsOf(d, start, length)
  {
    forall j | 0 <= j < length / 20
      ensures SlotBytes(e, start, j) == if j == k && |data| == 20 then data else SlotBytes(d, start, j)
    {
      SlotPatched(d, e, start, j, k, data);
    }
  }

  lemma SlotPatched(d: seq<Sector>, e: seq<Sector>, start: int, j: nat, k: nat, data: seq<Byte>)
    requires 0 <= start && 512 * start + 20 * j + 20 <= 512 * |d|
    requires Patched(d, e, 512 * start + 20 * k, data) && |data| <= 20
    requires 0 < |data| < 20 ==> j < k
    ensures SlotBytes(e, start, j) == if j == k && |data| == 20 then data else SlotBytes(d, start, j)
  {
    var b, c := SlotBytes(e, start, j), SlotBytes(d, start, j);
    forall i | 0 <= i < 20
      ensures b[i] == if j == k && |data| == 20 then data[i] else c[i]
    {
      var pos := 512 * start + 20 * j + i;
      assert b[i] == At(e, pos) && c[i] == At(d, pos);
    }
  }

  lemma WholeRead(length: int, k: nat, memory: bool)
    requires 0 <= length
    ensures Transferred(length, 20, 20 * k, memory) == 20 <==> memory && k < length / 20
    ensures 0 < Transferred(length, 20, 20 * k, memory) < 20 ==> k >= length / 20
    ensures Transferred(length, 20, 20 * k, memory) <= 20
  {
  }

  /** An entry being filled in: the sector's four bytes, the name and its
      null, what was there before, and the flag. */
  method FillEntry(e: array<Byte>, sector: int, name: seq<Byte>)
    requires e.Length == 20 && 0 <= sector < 0x1_0000_0000 && |name| <= 14 && 0 !in name
    modifies e
    ensures Decode(e[..]) == Slot(sector, name, true)
    ensures e[4..4 + |name|] == name && e[4 + |name|] == 0 && e[19] == 1
    ensures e[0] as int + 0x100 * (e[1] as int) + 0x1_0000 * (e[2] as int) + 0x100_0000 * (e[3] as int) == sector
  {
    e[19] := 1;
    var i := 0;
    while i < |name|
      invariant 0 <= i <= |name| && e[19] == 1
      invariant forall j :: 0 <= j < i ==> e[4 + j] == name[j]
    {
      e[4 + i] := name[i];
      i := i + 1;
    }
    e[4 + |name|] := 0;
    e[0], e[1] := SectorByte(sector, 0), SectorByte(sector, 1);
    e[2], e[3] := SectorByte(sector, 2), SectorByte(sector, 3);
    SectorBytes(sector);
    ghost var b := e[..];
    assert b[4..19] == name + [0] + b[5 + |name|..19];
    CStringOf(name, b[5 + |name|..19]);
  }

  /** struct dir */
  class Dir {
    const dev: Device
    const inode: Inode
    var pos: nat

    /** dir_open, with memory for the structure. */
    constructor (dev: Device, inode: Inode)
      requires inode.FitsOn(dev.sectors)
      ensures Valid() && this.dev == dev && this.inode == inode && pos == 0
    {
      this.dev, this.inode := dev, inode;
      pos := 0;
    }

    ghost predicate Valid()
      reads dev
    {
      inode.FitsOn(dev.sectors)
    }

    ghost function Slots(): seq<Slot>
      reads dev
      requires Valid()
    {
      SlotsOf(dev.sectors, inode.start, inode.length)
    }

    /** One read of an entry; it is whole just when the slot is, and there is
        memory for the bounce buffer. */
    method ReadEntry(e: array<Byte>, k: nat, memory: bool) returns (whole: bool)
      requires Valid() && e.Length == 20
      modifies e
      ensures whole <==> memory && k < |Slots()|
      ensures whole ==> Decode(e[..]) == Slots()[k]
    {
      hide Transferred, Decode, At;
      WholeRead(inode.length, k, memory);
      var n := ReadAt(dev, inode, e, 20, 20 * k, memory);
      whole := n == 20;
      if whole {
        assert e[..] == SlotBytes(dev.sectors, inode.start, k);
      }
    }

    /** One write of an entry. */
    method WriteEntry(e: array<Byte>, k: nat, memory: bool) returns (whole: bool)
      requires Valid() && e.Length == 20
      modifies dev
      ensures Valid()
      ensures whole <==> memory && k < |Slots()| && inode.denyWriteCnt == 0
      ensures Slots() == if whole then old(Slots())[k := Decode(e[..])] else old(Slots())
    {
      hide Transferred, Decode, At, Patched, SlotsOf;
      WholeRead(inode.length, k, memory);
      ghost var d := dev.sectors;
      var n := WriteAt(dev, inode, e[..], 20, 20 * k, memory);
      SameSize(d, dev.sectors, 512 * inode.start + 20 * k, e[..][..n]);
      PatchedSlots(d, dev.sectors, inode.start, inode.length, k, e[..][..n]);
      whole := n == 20;
      assert whole ==> e[..][..n] == e[..];
    }

    /** lookup, when memory lasts for `avail` reads. */
    method Lookup(name: seq<Byte>, avail: nat, e: array<Byte>) returns (r: Option<nat>)
      requires Valid() && e.Length == 20
      modifies e
      ensures r == FirstMatch(Slots(), name, avail)
      ensures r.Some? ==> Decode(e[..]) == Slots()[r.value]
    {
      hide Decode, SlotsOf, MatchFrom;
      var k := 0;
      while true
        invariant 0 <= k <= |Slots()| && k <= avail
        invariant forall j :: 0 <= j < k ==> !Matches(Slots()[j], name)
        decreases |Slots()| - k
      {
        var whole := ReadEntry(e, k, k < avail);
        if !whole {
          return None;
        }
        var slot := Decode(e[..]);
        if slot.inUse && slot.name == name {
          return Some(k);
        }
        k := k + 1;
      }
    }

    /** The search for a slot in dir_add. */
    method FindFree(avail: nat, e: array<Byte>) returns (k: nat)
      requires Valid() && e.Length == 20
      modifies e
      ensures k == FreeIndex(Slots(), avail)
    {
      hide Decode, SlotsOf, FreeIndex;
      k := 0;
      while true
        invariant 0 <= k <= |Slots()| && k <= avail
        invariant forall j :: 0 <= j < k ==> Slots()[j].inUse
        decreases |Slots()| - k
      {
        var whole := ReadEntry(e, k, k < avail);
        if !whole {
          break;
        }
        if !Decode(e[..]).inUse {
          break;
        }
        k := k + 1;
      }
      FreeIndexUnique(Slots(), avail, k);
    }

    /** dir_add. `avail1` and `avail2` are the reads its two searches can
        make before memory runs out, and `memory` is for the write. A failed
        call changes no complete slot. */
    method Add(name: seq<Byte>, sector: int, avail1: nat, avail2: nat, memory: bool) returns (ok: bool)
      requires Valid() && 0 !in name && 0 <= sector < 0x1_0000_0000
      modifies dev
      ensures Valid()
      ensures var r := AddSlot(old(Slots()), name, sector, avail1, avail2, memory && inode.denyWriteCnt == 0);
        ok == r.Some? && Slots() == if ok then r.value else old(Slots())
    {
      hide Decode, SlotsOf, FreeIndex, FirstMatch;
      if !ValidName(name) {
        return false;
      }
      var e := new Byte[20](_ => 0);
      var found := Lookup(name, avail1, e);
      if found.Some? {
        return false;
      }
      var k := FindFree(avail2, e);
      FillEntry(e, sector, name);
      ok := WriteEntry(e, k, memory);
    }

    /** dir_remove; `inodeOk` says whether the file's inode could be opened. */
    method Remove(name: seq<Byte>, avail: nat, inodeOk: bool, memory: bool) returns (ok: bool)
      requires Valid()
      modifies dev
      ensures Valid()
      ensures var r := ClearSlot(old(Slots()), name, avail, inodeOk && memory && inode.denyWriteCnt == 0);
        ok == r.Some? && Slots() == if ok then r.value else old(Slots())
    {
      hide Decode, SlotsOf;
      var e := new Byte[20](_ => 0);
      var found := Lookup(name, avail, e);
      if found.None? || !inodeOk {
        return false;
      }
      ClearFlag(e);
      ok := WriteEntry(e, found.value, memory);
    }

    /** dir_readdir from slot `at` on, when memory lasts up to slot `avail`:
        the name of the next slot in use, which is slot `k`. */
    method ReadDir(avail: nat, ghost at: nat) returns (r: Option<seq<Byte>>, ghost k: nat)
      requires Valid() && pos == 20 * at
      modifies this
      ensures r.None? ==> forall j :: at <= j < |Slots()| && j < avail ==> !Slots()[j].inUse
      ensures r.Some? ==> at <= k < |Slots()| && k < avail && pos == 20 * (k + 1)
      ensures r.Some? ==> Slots()[k].inUse && r.value == Slots()[k].name
      ensures r.Some? ==> forall j :: at <= j < k ==> !Slots()[j].inUse
    {
      hide Decode, SlotsOf;
      var e := new Byte[20](_ => 0);
      k := at;
      while true
        invariant at <= k && pos == 20 * k
        invariant forall j :: at <= j < k && j < |Slots()| ==> !Slots()[j].inUse
        decreases |Slots()| - k
      {
        assert pos / 20 == k;
        var whole := ReadEntry(e, pos / 20, pos / 20 < avail);
        if !whole {
          return None, k;
        }
        pos := pos + 20;
        var slot := Decode(e[..]);
        if slot.inUse {
          return Some(slot.name), k;
        }
        k := k + 1;
      }
    }
  }

  lemma SameSize(d: seq<Sector>, e: seq<Sector>, lo: int, data: seq<Byte>)
    requires Patched(d, e, lo, data)
    ensures |e| == |d|
  {
  }

  method ClearFlag(e: array<Byte>)
    requires e.Length == 20
    modifies e
    ensures Decode(e[..]) == Decode(old(e[..])).(inUse := false)
  {
    ghost var b := e[..];
    e[19] := 0;
    assert e[..][4..19] == b[4..19];
  }

  /** Listing a directory from its start: every name in use among the slots
      that memory lasts for. */
  method ListAll(dir: Dir, avail: nat) returns (names: seq<seq<Byte>>)
    requires dir.Valid()
    modifies dir
    ensures var slots := dir.Slots(); names == NamesOf(if avail < |slots| then slots[..avail] else slots)
  {
    hide SlotsOf, NamesOf;
    dir.pos := 0;
    ghost var slots := dir.Slots();
    ghost var n := if avail < |slots| then avail else |slots|;
    assert slots[..|slots|] == slots;
    ghost var i := 0;
    names := [];
    NoNames(slots);
    while true
      invariant 0 <= i <= n && dir.pos == 20 * i && names == NamesOf(slots[..i])
      decreases |slots| - i
    {
      ghost var k;
      var r;
      r, k := dir.ReadDir(avail, i);
      assert dir.Slots() == slots;
      if r.None? {
        NothingBetween(slots, i, n);
        return;
      }
      NothingBetween(slots, i, k);
      OneName(slots, k);
      names := names + [r.value];
      i := k + 1;
    }
  }

  lemma NoNames(slots: seq<Slot>)
    ensures NamesOf(slots[..0]) == []
  {
  }

  lemma OneName(slots: seq<Slot>, k: nat)
    requires k < |slots| && slots[k].inUse
    ensures NamesOf(slots[..k + 1]) == NamesOf(slots[..k]) + [slots[k].name]
  {
    assert slots[..k + 1][..k] == slots[..k];
  }

  lemma {:induction false} NothingBetween(slots: seq<Slot>, i: nat, j: nat)
    requires i <= j <= |slots| && forall k :: i <= k < j ==> !slots[k].inUse
    ensures NamesOf(slots[..j]) == NamesOf(slots[..i])
  {
    if i < j {
      NothingBetween(slots, i, j - 1);
      assert slots[..j][..j - 1] == slots[..j - 1];
    }
  }

  // -------------------------------------------------------- whole runs

  /** A call, with what memory allowed it: how many slots its searches could
      read, and whether its entry could be written. */
  datatype Op =
    | AddOp(name: seq<Byte>, sector: int, avail1: nat, avail2: nat, memory: bool)
    | RemoveOp(name: seq<Byte>, avail: nat, inodeOk: bool, memory: bool)

  ghost predicate GoodOp(op: Op) {
    op.AddOp? ==> 0 !in op.name && 0 <= op.sector < 0x1_0000_0000
  }

  /** The slots that a successful call leaves. */
  ghost function OpSlots(slots: seq<Slot>, op: Op): (r: Option<seq<Slot>>)
    ensures r.Some? ==> |r.value| == |slots|
  {
    match op
    case AddOp(name, sector, avail1, avail2, memory) => AddSlot(slots, name, sector, avail1, avail2, memory)
    case RemoveOp(name, avail, inodeOk, memory) => ClearSlot(slots, name, avail, inodeOk && memory)
  }

  /** The map that it should leave. */
  ghost function OpMap(m: map<seq<Byte>, int>, op: Op): map<seq<Byte>, int> {
    if op.AddOp? then m[op.name := op.sector] else m - {op.name}
  }

  /** The searches of an add did not stop short of the name or of a free
      slot. */
  ghost predicate OpSafe(slots: seq<Slot>, op: Op) {
    op.AddOp? && OpSlots(slots, op).Some? ==>
      && (forall j :: op.avail1 <= j < |slots| ==> !Matches(slots[j], op.name))
      && (exists j :: 0 <= j < |slots| && j <= op.avail2 && !slots[j].inUse)
  }

  /** One successful call refines its effect on the map exactly when it is
      safe. */
  lemma OpRefinesIff(slots: seq<Slot>, m: map<seq<Byte>, int>, op: Op)
    requires Refines(slots, m) && OpSlots(slots, op).Some?
    ensures (op.AddOp? ==> op.name !in m) && Refines(OpSlots(slots, op).value, OpMap(m, op)) <==> OpSafe(slots, op)
  {
    hide Refines, FreeIndex;
    match op {
      case AddOp(name, sector, avail1, avail2, memory) =>
        AddRefinesIff(slots, m, name, sector, avail1, avail2);
      case RemoveOp(name, avail, inodeOk, memory) =>
        RemoveRefines(slots, m, FirstMatch(slots, name, avail).value);
    }
  }

  ghost function SlotsAfter(slots: seq<Slot>, ops: seq<Op>, n: nat): (s: seq<Slot>)
    requires n <= |ops|
    ensures |s| == |slots|
  {
    if n == 0 then slots
    else
      var s := SlotsAfter(slots, ops, n - 1);
      if OpSlots(s, ops[n - 1]).Some? then OpSlots(s, ops[n - 1]).value else s
  }

  ghost function MapAfter(slots: seq<Slot>, m: map<seq<Byte>, int>, ops: seq<Op>, n: nat): map<seq<Byte>, int>
    requires n <= |ops|
  {
    if n == 0 then m
    else
      var m' := MapAfter(slots, m, ops, n - 1);
      if OpSlots(SlotsAfter(slots, ops, n - 1), ops[n - 1]).Some? then OpMap(m', ops[n - 1]) else m'
  }

  /** After `n` calls the slots hold what the calls that succeeded say, and
      the next one adds no name a second time. */
  ghost predicate RefinesAt(slots: seq<Slot>, m: map<seq<Byte>, int>, ops: seq<Op>, n: nat)
    requires n <= |ops|
  {
    && Refines(SlotsAfter(slots, ops, n), MapAfter(slots, m, ops, n))
    && (n < |ops| && ops[n].AddOp? && OpSlots(SlotsAfter(slots, ops, n), ops[n]).Some? ==>
         ops[n].name !in MapAfter(slots, m, ops, n))
  }

  ghost predicate SafeAt(slots: seq<Slot>, ops: seq<Op>, n: nat)
    requires n < |ops|
  {
    OpSafe(SlotsAfter(slots, ops, n), ops[n])
  }

  /** A run of calls refines the same run on a finite map throughout, if and
      only if every add in it is safe. */
  lemma RunRefinesIff(slots: seq<Slot>, m: map<seq<Byte>, int>, ops: seq<Op>)
    requires Refines(slots, m)
    ensures (forall n :: 0 <= n <= |ops| ==> RefinesAt(slots, m, ops, n)) <==>
            (forall n :: 0 <= n < |ops| ==> SafeAt(slots, ops, n))
  {
    hide Refines, OpSlots, OpSafe;
    if forall n :: 0 <= n < |ops| ==> SafeAt(slots, ops, n) {
      SafeRun(slots, m, ops, |ops|);
    }
    if forall n :: 0 <= n <= |ops| ==> RefinesAt(slots, m, ops, n) {
      forall n | 0 <= n < |ops|
        ensures SafeAt(slots, ops, n)
      {
        assert RefinesAt(slots, m, ops, n) && RefinesAt(slots, m, ops, n + 1);
        OneOp(slots, m, ops, n);
      }
    }
  }

  lemma OneOp(slots: seq<Slot>, m: map<seq<Byte>, int>, ops: seq<Op>, n: nat)
    requires n < |ops| && Refines(SlotsAfter(slots, ops, n), MapAfter(slots, m, ops, n))
    ensures SafeAt(slots, ops, n) <==>
      RefinesAt(slots, m, ops, n) && Refines(SlotsAfter(slots, ops, n + 1), MapAfter(slots, m, ops, n + 1))
  {
    hide Refines;
    var s := SlotsAfter(slots, ops, n);
    if OpSlots(s, ops[n]).Some? {
      OpRefinesIff(s, MapAfter(slots, m, ops, n), ops[n]);
    }
  }

  lemma {:induction false} SafeRun(slots: seq<Slot>, m: map<seq<Byte>, int>, ops: seq<Op>, k: nat)
    requires Refines(slots, m) && k <= |ops|
    requires forall n :: 0 <= n < |ops| ==> SafeAt(slots, ops, n)
    ensures Refines(SlotsAfter(slots, ops, k), MapAfter(slots, m, ops, k))
    ensures forall n :: 0 <= n <= k ==> RefinesAt(slots, m, ops, n)
  {
    hide Refines, SafeAt, OpSlots;
    if k > 0 {
      SafeRun(slots, m, ops, k - 1);
      OneOp(slots, m, ops, k - 1);
    }
    if k < |ops| {
      OneOp(slots, m, ops, k);
    }
  }

  /** With memory for every read an add is safe. */
  lemma MemoryIsSafe(slots: seq<Slot>, op: Op)
    requires op.AddOp? ==> |slots| <= op.avail1 && |slots| <= op.avail2
    ensures OpSafe(slots, op)
  {
    if op.AddOp? && OpSlots(slots, op).Some? {
      assert !slots[FreeIndex(slots, op.avail2)].inUse;
    }
  }

  /** The calls on the bytes do to the slots what the run above says. */
  method Execute(dir: Dir, ops: seq<Op>)
    requires dir.Valid() && dir.inode.denyWriteCnt == 0
    requires forall i :: 0 <= i < |ops| ==> GoodOp(ops[i])
    modifies dir.dev
    ensures dir.Valid() && dir.Slots() == SlotsAfter(old(dir.Slots()), ops, |ops|)
  {
    hide SlotsOf, OpSlots, SlotsAfter, GoodOp;
    var i := 0;
    ghost var slots := dir.Slots();
    SlotsBefore(slots, ops);
    while i < |ops|
      invariant 0 <= i <= |ops| && dir.Valid()
      invariant dir.Slots() == SlotsAfter(slots, ops, i)
    {
      Perform(dir, ops[i]);
      i := i + 1;
      SlotsNext(slots, ops, i);
    }
  }

  lemma SlotsBefore(slots: seq<Slot>, ops: seq<Op>)
    ensures SlotsAfter(slots, ops, 0) == slots
  {
  }

  lemma SlotsNext(slots: seq<Slot>, ops: seq<Op>, n: nat)
    requires 0 < n <= |ops|
    ensures var s := SlotsAfter(slots, ops, n - 1);
      SlotsAfter(slots, ops, n) == if OpSlots(s, ops[n - 1]).Some? then OpSlots(s, ops[n - 1]).value else s
  {
  }

  method Perform(dir: Dir, op: Op)
    requires dir.Valid() && dir.inode.denyWriteCnt == 0 && GoodOp(op)
    modifies dir.dev
    ensures dir.Valid()
    ensures var r := OpSlots(old(dir.Slots()), op); dir.Slots() == if r.Some? then r.value else old(dir.Slots())
  {
    hide SlotsOf, AddSlot, ClearSlot;
    match op {
      case AddOp(name, sector, avail1, avail2, memory) =>
        var _ := dir.Add(name, sector, avail1, avail2, memory);
      case RemoveOp(name, avail, inodeOk, memory) =>
        var _ := dir.Remove(name, avail, inodeOk, memory);
    }
  }
}
