/** The two-level page table of src/userprog/pagedir.c, in memory words laid
    out as src/threads/pte.h says. An address is a 32-bit word. */
module PageTable {
  import opened Options

  // -------------------------------------------------- address and entry bits

  datatype Addr = Addr(bits: bv32)

  function Ofs(va: bv32): bv32 { va & 0xfff }
  function PageOf(va: bv32): bv32 { va & 0xfffff000 }
  function PtNo(va: bv32): bv32 { (va & 0x3ff000) >> 12 }
  function PdNo(va: bv32): bv32 { va >> 22 }

  predicate User(va: bv32) { va < 0xC0000000 }
  predicate KernelPage(p: bv32) { Ofs(p) == 0 && !User(p) }

  function Vtop(p: bv32): bv32 { p - 0xC0000000 }
  function Ptov(x: bv32): bv32 { x + 0xC0000000 }

  function PdeCreate(pt: bv32): bv32 { Vtop(pt) | 4 | 1 | 2 }
  function PdeGetPt(e: bv32): bv32 { Ptov(e & 0xfffff000) }
  function PteCreateUser(page: bv32, w: bool): bv32 { (Vtop(page) | 1 | (if w then 2 else 0)) | 4 }
  function PteGetPage(e: bv32): bv32 { Ptov(e & 0xfffff000) }
  predicate Present(e: bv32) { e & 1 != 0 }
  predicate Writable(e: bv32) { e & 2 != 0 }
  function NotPresent(e: bv32): bv32 { e & !1 }

  /** The address in page `p` at the offset of `va`. */
  function WithOfs(p: bv32, va: bv32): bv32 { p + Ofs(va) }

  lemma WithOfsBits(p: bv32, va: bv32)
    requires Ofs(p) == 0
    ensures PageOf(WithOfs(p, va)) == p && Ofs(WithOfs(p, va)) == Ofs(va)
  {
  }

  /** The address of word `i` of page `p`. */
  function WordAt(p: bv32, i: bv32): Addr { Addr(p + (i << 2)) }

  lemma PdeRoundTrip(pt: bv32)
    requires KernelPage(pt)
    ensures PdeGetPt(PdeCreate(pt)) == pt && Present(PdeCreate(pt)) && PdeCreate(pt) != 0
  {
  }

  lemma PteRoundTrip(page: bv32, w: bool)
    requires KernelPage(page)
    ensures var e := PteCreateUser(page, w);
      PteGetPage(e) == page && Present(e) && Writable(e) == w
  {
  }

  lemma NotPresentBits(e: bv32)
    ensures !Present(NotPresent(e)) && Writable(NotPresent(e)) == Writable(e)
    ensures PteGetPage(NotPresent(e)) == PteGetPage(e)
  {
  }

  /** The two indices and the offset make up the address. */
  lemma Recompose(a: bv32)
    ensures PageOf(a) == (PdNo(a) << 22) | (PtNo(a) << 12)
    ensures a == PageOf(a) | Ofs(a)
  {
  }

  lemma IndicesOfPage(a: bv32)
    ensures PdNo(PageOf(a)) == PdNo(a) && PtNo(PageOf(a)) == PtNo(a)
  {
  }

  /** Two addresses use the same entry just when they lie in one page. */
  lemma Indices(a: bv32, b: bv32)
    ensures PdNo(a) == PdNo(b) && PtNo(a) == PtNo(b) <==> PageOf(a) == PageOf(b)
  {
    hide PageOf, PdNo, PtNo;
    Recompose(a);
    Recompose(b);
    IndicesOfPage(a);
    IndicesOfPage(b);
  }

  lemma IndexRange(a: bv32)
    ensures User(a) <==> PdNo(a) < 0x300
    ensures PdNo(a) < 1024 && PtNo(a) < 1024
  {
  }

  /** A word's address gives back its page and index. */
  lemma WordBits(p: bv32, i: bv32)
    requires Ofs(p) == 0 && i < 1024
    ensures PageOf(WordAt(p, i).bits) == p && Ofs(WordAt(p, i).bits) >> 2 == i && WordAt(p, i).bits & 3 == 0
  {
  }

  lemma WordInjective(p: bv32, i: bv32, q: bv32, j: bv32)
    requires Ofs(p) == 0 && Ofs(q) == 0 && i < 1024 && j < 1024
    ensures WordAt(p, i) == WordAt(q, j) <==> p == q && i == j
  {
    hide WordAt, PageOf;
    WordBits(p, i);
    WordBits(q, j);
  }

  lemma AlignedIsPage(a: bv32)
    ensures Ofs(a) == 0 <==> PageOf(a) == a
  {
  }

  // ------------------------------------------------------ tables in memory

  type Words = imap<Addr, bv32>

  ghost predicate Total(mem: Words) {
    forall a: Addr :: a in mem
  }

  ghost function Pde(mem: Words, pd: bv32, i: bv32): bv32
    requires Total(mem)
  {
    mem[WordAt(pd, i)]
  }

  /** The page table that directory entry `i` points to. */
  ghost function TableOf(mem: Words, pd: bv32, i: bv32): bv32
    requires Total(mem)
  {
    PdeGetPt(Pde(mem, pd, i))
  }

  ghost predicate HasTable(mem: Words, pd: bv32, i: bv32)
    requires Total(mem)
  {
    Pde(mem, pd, i) != 0
  }

  ghost function Pte(mem: Words, pd: bv32, i: bv32, j: bv32): bv32
    requires Total(mem)
  {
    mem[WordAt(TableOf(mem, pd, i), j)]
  }

  datatype Frame = Frame(page: bv32, writable: bool)

  /** What an entry says. */
  function Decode(e: bv32): Option<Frame> {
    if Present(e) then Some(Frame(PteGetPage(e), Writable(e))) else None
  }

  /** What the table maps entry (i, j) to. */
  ghost function Lookup(mem: Words, pd: bv32, i: bv32, j: bv32): Option<Frame>
    requires Total(mem)
  {
    if HasTable(mem, pd, i) then Decode(Pte(mem, pd, i, j)) else None
  }

  /** The directory's user half points to page tables of its own. */
  ghost predicate Good(mem: Words, pd: bv32, used: set<Addr>) {
    && Total(mem) && KernelPage(pd) && Addr(pd) in used
    && (forall i :: i < 0x300 && HasTable(mem, pd, i) ==>
         && Present(Pde(mem, pd, i)) && KernelPage(TableOf(mem, pd, i))
         && Addr(TableOf(mem, pd, i)) in used && TableOf(mem, pd, i) != pd)
    && (forall i, k :: i < 0x300 && k < 0x300 && i != k && HasTable(mem, pd, i) && HasTable(mem, pd, k) ==>
         TableOf(mem, pd, i) != TableOf(mem, pd, k))
  }

  /** A write to one entry of a page table changes that entry and no other. */
  lemma WriteEntry(mem: Words, pd: bv32, used: set<Addr>, i: bv32, j: bv32, v: bv32)
    requires Good(mem, pd, used) && i < 0x300 && j < 1024 && HasTable(mem, pd, i)
    ensures var out := mem[WordAt(TableOf(mem, pd, i), j) := v];
      && Good(out, pd, used)
      && (forall k :: k < 1024 ==> Pde(out, pd, k) == Pde(mem, pd, k))
      && (forall k, l :: k < 0x300 && l < 1024 && HasTable(mem, pd, k) ==>
           Pte(out, pd, k, l) == if k == i && l == j then v else Pte(mem, pd, k, l))
  {
    hide PdeGetPt, Present, WordAt, KernelPage;
    var t := TableOf(mem, pd, i);
    var out := mem[WordAt(t, j) := v];
    assert Total(out);
    forall k: bv32 | k < 1024
      ensures Pde(out, pd, k) == Pde(mem, pd, k)
    {
      KernelAligned(t);
      KernelAligned(pd);
      WordInjective(t, j, pd, k);
    }
    forall k: bv32, l: bv32 | k < 0x300 && l < 1024 && HasTable(mem, pd, k)
      ensures Pte(out, pd, k, l) == if k == i && l == j then v else Pte(mem, pd, k, l)
    {
      KernelAligned(t);
      KernelAligned(TableOf(mem, pd, k));
      WordInjective(t, j, TableOf(mem, pd, k), l);
    }
  }

  lemma KernelAligned(p: bv32)
    requires KernelPage(p)
    ensures Ofs(p) == 0
  {
  }

  /** `out` is `mem` but for the words of page `t`. */
  ghost predicate SameBut(mem: Words, out: Words, t: bv32) {
    && Total(mem) && Total(out)
    && forall p, l :: Ofs(p) == 0 && p != t && l < 1024 ==> out[WordAt(p, l)] == mem[WordAt(p, l)]
  }

  lemma WriteSameBut(mem: Words, out: Words, t: bv32, k: bv32, v: bv32)
    requires SameBut(mem, out, t) && Ofs(t) == 0 && k < 1024
    ensures SameBut(mem, out[WordAt(t, k) := v], t)
    ensures forall l :: l < 1024 && l != k ==> out[WordAt(t, k) := v][WordAt(t, l)] == out[WordAt(t, l)]
  {
    hide WordAt, Ofs;
    var out' := out[WordAt(t, k) := v];
    forall p: bv32, l: bv32 | Ofs(p) == 0 && p != t && l < 1024
      ensures out'[WordAt(p, l)] == mem[WordAt(p, l)]
    {
      WordInjective(p, l, t, k);
    }
    forall l: bv32 | l < 1024 && l != k
      ensures out'[WordAt(t, l)] == out[WordAt(t, l)]
    {
      WordInjective(t, l, t, k);
    }
  }

  /** What a page is filled from. */
  datatype Source = PageAt(page: bv32) | Repeat(word: bv32)

  /** Word `l` of that. */
  function SourceWord(mem: Words, src: Source, l: bv32): bv32
    requires Total(mem)
  {
    match src
    case PageAt(page) => mem[WordAt(page, l)]
    case Repeat(word) => word
  }

  ghost predicate Filled(mem: Words, out: Words, t: bv32, src: Source, k: bv32)
    requires Total(mem) && Total(out)
  {
    forall l :: l < k ==> out[WordAt(t, l)] == SourceWord(mem, src, l)
  }

  lemma FillStep(mem: Words, out: Words, t: bv32, src: Source, k: bv32)
    requires SameBut(mem, out, t) && Ofs(t) == 0 && k < 1024 && Filled(mem, out, t, src, k)
    ensures SameBut(mem, out[WordAt(t, k) := SourceWord(mem, src, k)], t)
    ensures Filled(mem, out[WordAt(t, k) := SourceWord(mem, src, k)], t, src, k + 1)
  {
    hide WordAt, Ofs, SourceWord;
    WriteSameBut(mem, out, t, k, SourceWord(mem, src, k));
  }

  lemma SourceUnchanged(mem: Words, out: Words, t: bv32, src: Source, k: bv32)
    requires SameBut(mem, out, t) && k < 1024
    requires src.PageAt? ==> src.page != t && Ofs(src.page) == 0
    ensures SourceWord(out, src, k) == SourceWord(mem, src, k)
  {
  }

  /** The copy of a page (pagedir_create), or of zeros (PAL_ZERO), or of the
      pattern that freed pages are filled with. */
  method FillPage(mem: Words, t: bv32, src: Source) returns (out: Words)
    requires Total(mem) && Ofs(t) == 0
    requires src.PageAt? ==> src.page != t && Ofs(src.page) == 0
    ensures SameBut(mem, out, t)
    ensures Filled(mem, out, t, src, 1024)
  {
    hide WordAt, Ofs, SourceWord, Filled;
    out := mem;
    var k: bv32 := 0;
    assert Filled(mem, out, t, src, k) by { NothingFilled(mem, t, src); }
    while k < 1024
      invariant k <= 1024 && SameBut(mem, out, t) && Filled(mem, out, t, src, k)
      decreases 1024 - k
    {
      var v := SourceWord(out, src, k);
      SourceUnchanged(mem, out, t, src, k);
      FillStep(mem, out, t, src, k);
      out := out[WordAt(t, k) := v];
      k := k + 1;
    }
    assert k == 1024;
  }

  lemma NothingFilled(mem: Words, t: bv32, src: Source)
    requires Total(mem)
    ensures Filled(mem, mem, t, src, 0)
  {
  }

  /** Installing a page table full of zeros maps nothing new. */
  lemma NewTable(mem: Words, z: Words, pd: bv32, used: set<Addr>, i: bv32, t: bv32)
    requires Good(mem, pd, used) && i < 0x300 && !HasTable(mem, pd, i)
    requires KernelPage(t) && Addr(t) !in used && SameBut(mem, z, t)
    requires Filled(mem, z, t, Repeat(0), 1024)
    ensures var out := z[WordAt(pd, i) := PdeCreate(t)];
      && Total(out)
      && HasTable(out, pd, i) && TableOf(out, pd, i) == t && Present(Pde(out, pd, i))
      && (forall k :: k < 1024 && k != i ==> Pde(out, pd, k) == Pde(mem, pd, k))
      && (forall k, l :: k < 0x300 && k != i && l < 1024 && HasTable(mem, pd, k) ==>
           Pte(out, pd, k, l) == Pte(mem, pd, k, l))
      && (forall l :: l < 1024 ==> Pte(out, pd, i, l) == 0)
  {
    hide WordAt, PdeGetPt, PdeCreate, Present, Ofs, KernelPage;
    var out := z[WordAt(pd, i) := PdeCreate(t)];
    assert Total(out);
    PdeRoundTrip(t);
    KernelAligned(pd);
    KernelAligned(t);
    forall k: bv32 | k < 1024 && k != i
      ensures Pde(out, pd, k) == Pde(mem, pd, k)
    {
      WordInjective(pd, i, pd, k);
    }
    forall k: bv32, l: bv32 | k < 0x300 && k != i && l < 1024 && HasTable(mem, pd, k)
      ensures Pte(out, pd, k, l) == Pte(mem, pd, k, l)
    {
      KernelAligned(TableOf(mem, pd, k));
      WordInjective(pd, i, TableOf(mem, pd, k), l);
    }
    forall l: bv32 | l < 1024
      ensures Pte(out, pd, i, l) == 0
    {
      WordInjective(pd, i, t, l);
    }
  }

  lemma NewTableGood(mem: Words, z: Words, pd: bv32, used: set<Addr>, i: bv32, t: bv32)
    requires Good(mem, pd, used) && i < 0x300 && !HasTable(mem, pd, i)
    requires KernelPage(t) && Addr(t) !in used && SameBut(mem, z, t)
    requires Filled(mem, z, t, Repeat(0), 1024)
    ensures var out := z[WordAt(pd, i) := PdeCreate(t)];
      Good(out, pd, used + {Addr(t)}) && HasTable(out, pd, i)
      && (forall k :: k < 1024 && k != i ==> Pde(out, pd, k) == Pde(mem, pd, k))
      && (forall k, l :: k < 0x300 && l < 1024 ==> Lookup(out, pd, k, l) == Lookup(mem, pd, k, l))
  {
    hide WordAt, PdeGetPt, PdeCreate, Ofs, KernelPage, SameBut;
    NewTable(mem, z, pd, used, i, t);
    assert !Present(0);
  }

  /** The partial map from user addresses to frames. */
  ghost function Translate(mem: Words, pd: bv32, va: bv32): Option<Frame>
    requires Total(mem)
  {
    Lookup(mem, pd, PdNo(va), PtNo(va))
  }

  /** The kernel's part of the directory is the same. */
  ghost predicate KernelKept(mem: Words, out: Words, pd: bv32) {
    Total(mem) && Total(out) && forall i :: 0x300 <= i < 1024 ==> Pde(out, pd, i) == Pde(mem, pd, i)
  }

  /** Writing the entry of page `up` changes the map at that page alone. */
  lemma SetBinding(mem: Words, pd: bv32, used: set<Addr>, up: bv32, e: bv32)
    requires Good(mem, pd, used) && User(up) && HasTable(mem, pd, PdNo(up))
    ensures var out := mem[WordAt(TableOf(mem, pd, PdNo(up)), PtNo(up)) := e];
      && Good(out, pd, used) && KernelKept(mem, out, pd)
      && (forall v :: User(v) ==>
           Translate(out, pd, v) == if PageOf(v) == PageOf(up) then Decode(e) else Translate(mem, pd, v))
  {
    hide WordAt, PdeGetPt, Present, KernelPage, Ofs, PageOf, PdNo, PtNo, User, Decode;
    var out := mem[WordAt(TableOf(mem, pd, PdNo(up)), PtNo(up)) := e];
    IndexRange(up);
    WriteEntry(mem, pd, used, PdNo(up), PtNo(up), e);
    forall v: bv32 | User(v)
      ensures Translate(out, pd, v) == if PageOf(v) == PageOf(up) then Decode(e) else Translate(mem, pd, v)
    {
      Indices(v, up);
      IndexRange(v);
    }
  }

  // --------------------------------------------------- the processor's view

  /** What the processor finds for an address: the physical page, and whether
      user code may use it and write to it. */
  datatype Access = Access(frame: bv32, user: bool, writable: bool)

  /** Physical memory is mapped at 0xC0000000. */
  function ToPhysical(p: bv32): bv32 { p - 0xC0000000 }
  function FromPhysical(x: bv32): bv32 { x + 0xC0000000 }

  /** Word `i` of the physical page at `x`. */
  ghost function Physical(mem: Words, x: bv32, i: bv32): bv32
    requires Total(mem)
  {
    mem[WordAt(FromPhysical(x), i)]
  }

  // The fields of an entry and the indices in an address, as the processor
  // takes them.
  function Base(e: bv32): bv32 { e & 0xfffff000 }
  predicate Bit0(e: bv32) { e & 1 != 0 }
  predicate Bit1(e: bv32) { e & 2 != 0 }
  predicate Bit2(e: bv32) { e & 4 != 0 }
  function HighIndex(va: bv32): bv32 { va >> 22 }
  function LowIndex(va: bv32): bv32 { (va >> 12) & 0x3ff }

  /** The walk of section 3.7 of the IA-32 system programming guide: bits 31
      to 12 of an entry are a physical page, bit 0 says it is present, bit 1
      writable, bit 2 that user code may use it; at both levels for a right to
      hold. `cr3` is the physical address of the directory. */
  ghost function Walk(mem: Words, cr3: bv32, va: bv32): Option<Access>
    requires Total(mem)
  {
    var pde := Physical(mem, Base(cr3), HighIndex(va));
    if !Bit0(pde) then None
    else
      var pte := Physical(mem, Base(pde), LowIndex(va));
      if !Bit0(pte) then None
      else Some(Access(Base(pte), Bit2(pde) && Bit2(pte), Bit1(pde) && Bit1(pte)))
  }

  /** The tables leave all rights to the entries, and every entry in use is
      for user code. */
  ghost predicate Accessible(mem: Words, pd: bv32)
    requires Total(mem)
  {
    && (forall i :: i < 0x300 && HasTable(mem, pd, i) ==> Bit2(Pde(mem, pd, i)) && Writable(Pde(mem, pd, i)))
    && (forall i, j :: i < 0x300 && j < 1024 && HasTable(mem, pd, i) && Present(Pte(mem, pd, i, j)) ==>
         Bit2(Pte(mem, pd, i, j)))
  }

  lemma PdeRights(pt: bv32)
    ensures Bit2(PdeCreate(pt)) && Writable(PdeCreate(pt))
  {
  }

  lemma PteRights(page: bv32, w: bool)
    ensures Bit2(PteCreateUser(page, w))
  {
  }

  lemma AccessibleWrite(mem: Words, pd: bv32, used: set<Addr>, i: bv32, j: bv32, v: bv32)
    requires Good(mem, pd, used) && Accessible(mem, pd) && i < 0x300 && j < 1024 && HasTable(mem, pd, i)
    requires Present(v) ==> Bit2(v)
    ensures Accessible(mem[WordAt(TableOf(mem, pd, i), j) := v], pd)
  {
    hide Good, WordAt, PdeGetPt, Present, Bit2, Writable;
    GoodTotal(mem, pd, used);
    WriteEntry(mem, pd, used, i, j, v);
  }

  lemma AccessibleNew(mem: Words, z: Words, pd: bv32, used: set<Addr>, i: bv32, t: bv32)
    requires Good(mem, pd, used) && Accessible(mem, pd) && i < 0x300 && !HasTable(mem, pd, i)
    requires KernelPage(t) && Addr(t) !in used && SameBut(mem, z, t)
    requires Filled(mem, z, t, Repeat(0), 1024)
    ensures Accessible(z[WordAt(pd, i) := PdeCreate(t)], pd)
  {
    hide Good, WordAt, PdeGetPt, PdeCreate, Present, KernelPage, SameBut, Filled, Bit2, Writable;
    GoodTotal(mem, pd, used);
    NewTable(mem, z, pd, used, i, t);
    PdeRights(t);
    assert Total(z) by { SameButTotal(mem, z, t); }
    NewEntry(z, pd, i, t);
    ZeroAbsent();
  }

  lemma SameButTotal(mem: Words, z: Words, t: bv32)
    requires SameBut(mem, z, t)
    ensures Total(z)
  {
  }

  lemma NewEntry(z: Words, pd: bv32, i: bv32, t: bv32)
    requires Total(z)
    ensures Pde(z[WordAt(pd, i) := PdeCreate(t)], pd, i) == PdeCreate(t)
  {
  }

  lemma ZeroAbsent()
    ensures !Present(0)
  {
  }

  lemma IndexBits(va: bv32)
    ensures HighIndex(va) == PdNo(va) && LowIndex(va) == PtNo(va)
  {
  }

  lemma EntryBits(e: bv32)
    ensures Bit0(e) == Present(e) && Bit1(e) == Writable(e)
    ensures PdeGetPt(e) == PteGetPage(e) == FromPhysical(Base(e))
  {
  }

  lemma ThereAndBack(x: bv32)
    ensures ToPhysical(FromPhysical(x)) == x
  {
  }

  lemma DirectoryBase(pd: bv32)
    requires KernelPage(pd)
    ensures FromPhysical(Base(ToPhysical(pd))) == pd
  {
  }

  /** A binding of the map, as the processor should see it: the physical page,
      for user code, and writable just when the map says so. */
  function Seen(f: Option<Frame>): Option<Access> {
    match f
    case None => None
    case Some(f) => Some(Access(ToPhysical(f.page), true, f.writable))
  }

  /** The processor translates every user address as the map says. */
  lemma WalkAgrees(mem: Words, pd: bv32, used: set<Addr>, va: bv32)
    requires Good(mem, pd, used) && Accessible(mem, pd) && User(va)
    ensures Walk(mem, ToPhysical(pd), va) == Seen(Translate(mem, pd, va))
  {
    hide WordAt, PdeGetPt, PteGetPage, KernelPage, Ofs, PdNo, PtNo, User, Present, Writable, ToPhysical,
      FromPhysical, Base, Bit0, Bit1, Bit2, HighIndex, LowIndex;
    var i, j := PdNo(va), PtNo(va);
    IndexRange(va);
    IndexBits(va);
    DirectoryBase(pd);
    var e := Pde(mem, pd, i);
    EntryBits(e);
    EntryBits(Pte(mem, pd, i, j));
    ThereAndBack(Base(Pte(mem, pd, i, j)));
    GoodPresent(mem, pd, used, i);
  }

  lemma KeepsAccess(mem: Words, pd: bv32, used: set<Addr>, up: bv32, e: bv32)
    requires Good(mem, pd, used) && Accessible(mem, pd) && User(up) && HasTable(mem, pd, PdNo(up))
    requires Present(e) ==> Bit2(e)
    ensures Accessible(mem[WordAt(TableOf(mem, pd, PdNo(up)), PtNo(up)) := e], pd)
  {
    hide Good, Accessible, WordAt, PdeGetPt, PdNo, PtNo, User, Present, Bit2;
    GoodTotal(mem, pd, used);
    IndexRange(up);
    AccessibleWrite(mem, pd, used, PdNo(up), PtNo(up), e);
  }

  // ------------------------------------------------------- destruction

  /** Frame `a` is mapped at entry (k, l). */
  ghost predicate MappedAt(mem: Words, pd: bv32, k: bv32, l: bv32, a: Addr)
    requires Total(mem)
  {
    var f := Lookup(mem, pd, k, l);
    f.Some? && a == Addr(f.value.page)
  }

  ghost predicate TableAt(mem: Words, pd: bv32, k: bv32, a: Addr)
    requires Total(mem)
  {
    HasTable(mem, pd, k) && a == Addr(TableOf(mem, pd, k))
  }

  /** The frames are allocated pages, each mapped once, and none of them is
      the directory or a page table. */
  ghost predicate Injective(mem: Words, pd: bv32, used: set<Addr>)
    requires Total(mem)
  {
    && (forall k, l, a :: k < 0x300 && l < 1024 && MappedAt(mem, pd, k, l, a) ==> a in used && a != Addr(pd))
    && (forall k, l, a, i :: k < 0x300 && l < 1024 && i < 0x300 && MappedAt(mem, pd, k, l, a) ==>
         !TableAt(mem, pd, i, a))
    && (forall k, l, a, i, j ::
         k < 0x300 && l < 1024 && i < 0x300 && j < 1024 && MappedAt(mem, pd, k, l, a) && MappedAt(mem, pd, i, j, a)
         ==> k == i && l == j)
  }

  /** Mapped at one of the first `n` entries of table `k`. */
  ghost predicate RowHas(mem: Words, pd: bv32, k: bv32, n: bv32, a: Addr)
    requires Total(mem)
  {
    exists l :: Below(l, n) && MappedAt(mem, pd, k, l, a)
  }

  /** Freed by the first `i` rounds of the outer loop. */
  ghost predicate RowsHave(mem: Words, pd: bv32, i: bv32, a: Addr)
    requires Total(mem)
  {
    exists k :: Below(k, i) && (RowHas(mem, pd, k, 1024, a) || TableAt(mem, pd, k, a))
  }

  /** What is still allocated after `i` rounds, and in round `i` after `j`. */
  ghost predicate Left(used: set<Addr>, all: set<Addr>, mem: Words, pd: bv32, i: bv32)
    requires Total(mem)
  {
    forall a :: a in used <==> a in all && !RowsHave(mem, pd, i, a)
  }

  ghost predicate LeftInRow(used: set<Addr>, all: set<Addr>, mem: Words, pd: bv32, i: bv32, j: bv32)
    requires Total(mem)
  {
    forall a :: a in used <==> a in all && !RowsHave(mem, pd, i, a) && !RowHas(mem, pd, i, j, a)
  }

  predicate Below(l: bv32, n: bv32) { l < n }
  function Next(n: bv32): bv32 { n + 1 }

  lemma BelowNext(l: bv32, n: bv32)
    requires n < 1024
    ensures Below(l, Next(n)) <==> Below(l, n) || l == n
  {
  }

  lemma RowStep(mem: Words, pd: bv32, k: bv32, n: bv32, a: Addr)
    requires Total(mem) && n < 1024
    ensures RowHas(mem, pd, k, Next(n), a) <==> RowHas(mem, pd, k, n, a) || MappedAt(mem, pd, k, n, a)
  {
    hide MappedAt, Below, Next;
    if RowHas(mem, pd, k, Next(n), a) {
      var l :| Below(l, Next(n)) && MappedAt(mem, pd, k, l, a);
      BelowNext(l, n);
    }
    if RowHas(mem, pd, k, n, a) {
      var l :| Below(l, n) && MappedAt(mem, pd, k, l, a);
      BelowNext(l, n);
    }
    BelowNext(n, n);
  }

  lemma RowsStep(mem: Words, pd: bv32, i: bv32, a: Addr)
    requires Total(mem) && i < 0x300
    ensures RowsHave(mem, pd, Next(i), a) <==>
            RowsHave(mem, pd, i, a) || RowHas(mem, pd, i, 1024, a) || TableAt(mem, pd, i, a)
  {
    hide RowHas, TableAt, Below, Next;
    if RowsHave(mem, pd, Next(i), a) {
      var k :| Below(k, Next(i)) && (RowHas(mem, pd, k, 1024, a) || TableAt(mem, pd, k, a));
      BelowNext(k, i);
    }
    if RowsHave(mem, pd, i, a) {
      var k :| Below(k, i) && (RowHas(mem, pd, k, 1024, a) || TableAt(mem, pd, k, a));
      BelowNext(k, i);
    }
    BelowNext(i, i);
  }

  /** The frame at (i, j) is still allocated when its turn comes. */
  lemma FrameStillUsed(mem: Words, pd: bv32, used: set<Addr>, i: bv32, j: bv32, a: Addr)
    requires Good(mem, pd, used) && Injective(mem, pd, used)
    requires i < 0x300 && j < 1024 && MappedAt(mem, pd, i, j, a)
    ensures a in used && !RowsHave(mem, pd, i, a) && !RowHas(mem, pd, i, j, a)
  {
    hide MappedAt, TableAt, Good;
  }

  /** So is table `i`. */
  lemma TableStillUsed(mem: Words, pd: bv32, used: set<Addr>, i: bv32, a: Addr)
    requires Good(mem, pd, used) && Injective(mem, pd, used)
    requires i < 0x300 && TableAt(mem, pd, i, a)
    ensures a in used && a != Addr(pd) && !RowsHave(mem, pd, i, a) && !RowHas(mem, pd, i, 1024, a)
  {
    hide MappedAt, KernelPage, Present;
    forall k: bv32 | k < i
      ensures !TableAt(mem, pd, k, a)
    {
      assert HasTable(mem, pd, k) ==> TableOf(mem, pd, k) != TableOf(mem, pd, i);
    }
  }

  lemma DirectoryStillUsed(mem: Words, pd: bv32, used: set<Addr>)
    requires Good(mem, pd, used) && Injective(mem, pd, used)
    ensures Addr(pd) in used && !RowsHave(mem, pd, 0x300, Addr(pd))
  {
    hide MappedAt, KernelPage, Present;
    forall k: bv32 | k < 0x300
      ensures !TableAt(mem, pd, k, Addr(pd)) && !RowHas(mem, pd, k, 1024, Addr(pd))
    {
    }
  }

  /** Every page still in use has the words it had. */
  ghost predicate Intact(mem: Words, was: Words, used: set<Addr>) {
    && Total(mem) && Total(was)
    && forall p, l :: Addr(p) in used && Ofs(p) == 0 && l < 1024 ==> mem[WordAt(p, l)] == was[WordAt(p, l)]
  }

  lemma IntactBut(was: Words, mem: Words, out: Words, used: set<Addr>, a: Addr)
    requires Intact(mem, was, used) && SameBut(mem, out, a.bits)
    ensures Intact(out, was, used - {a})
  {
    hide WordAt, Ofs;
  }

  lemma FrameAligned(e: bv32)
    ensures Ofs(PteGetPage(e)) == 0
  {
  }

  lemma BelowMost(l: bv32, j: bv32)
    requires Below(l, j) && j <= 1024
    ensures Below(l, 1024)
  {
  }

  lemma RowPart(mem: Words, pd: bv32, k: bv32, j: bv32, a: Addr)
    requires Total(mem) && j <= 1024 && RowHas(mem, pd, k, j, a)
    ensures RowHas(mem, pd, k, 1024, a)
  {
    hide MappedAt, Below;
    var l :| Below(l, j) && MappedAt(mem, pd, k, l, a);
    BelowMost(l, j);
  }

  lemma RowsPart(mem: Words, pd: bv32, i: bv32, a: Addr)
    requires Total(mem) && i <= 0x300 && RowsHave(mem, pd, i, a)
    ensures RowsHave(mem, pd, 0x300, a)
  {
    hide RowHas, TableAt, Below;
    var k :| Below(k, i) && (RowHas(mem, pd, k, 1024, a) || TableAt(mem, pd, k, a));
    BelowLast(k, i);
  }

  lemma BelowLast(k: bv32, i: bv32)
    requires Below(k, i) && i <= 0x300
    ensures Below(k, 0x300)
  {
  }

  /** What destruction reads is in use: the directory, and the table at hand. */
  lemma ReadsInUse(was: Words, pd: bv32, all: set<Addr>, used: set<Addr>, i: bv32, j: bv32)
    requires Good(was, pd, all) && Injective(was, pd, all) && i < 0x300 && j <= 1024
    requires LeftInRow(used, all, was, pd, i, j)
    ensures Addr(pd) in used && Ofs(pd) == 0
    ensures HasTable(was, pd, i) ==> Addr(TableOf(was, pd, i)) in used && Ofs(TableOf(was, pd, i)) == 0
  {
    hide RowsHave, RowHas, Injective, PdeGetPt, WordAt;
    DirectoryStillUsed(was, pd, all);
    DirectoryAlone(was, pd, all, i);
    var d := Addr(pd);
    if RowsHave(was, pd, i, d) {
      RowsPart(was, pd, i, d);
    }
    if RowHas(was, pd, i, j, d) {
      RowPart(was, pd, i, j, d);
    }
    if HasTable(was, pd, i) {
      var t := Addr(TableOf(was, pd, i));
      TableStillUsed(was, pd, all, i, t);
      if RowHas(was, pd, i, j, t) {
        RowPart(was, pd, i, j, t);
      }
    }
  }

  lemma DirectoryAlone(mem: Words, pd: bv32, used: set<Addr>, k: bv32)
    requires Good(mem, pd, used) && Injective(mem, pd, used) && k < 0x300
    ensures !RowHas(mem, pd, k, 1024, Addr(pd))
  {
    hide MappedAt, KernelPage, Present;
  }

  class PageDir {
    const pd: bv32
    var mem: Words
    var used: set<Addr>

    ghost predicate Valid()
      reads this
    {
      Good(mem, pd, used) && Accessible(mem, pd)
    }

    ghost function Map(va: bv32): Option<Frame>
      reads this
      requires Valid()
    {
      Translate(mem, pd, va)
    }

    /** What the processor makes of `va` once the directory is active. */
    ghost function Hardware(va: bv32): Option<Access>
      reads this
      requires Valid()
    {
      Walk(mem, ToPhysical(pd), va)
    }

    lemma HardwareAgrees()
      requires Valid()
      ensures forall v :: User(v) ==> Hardware(v) == Seen(Map(v))
    {
      hide Good, Accessible, User, Walk, Translate, Seen;
      forall v | User(v)
        ensures Hardware(v) == Seen(Map(v))
      {
        WalkAgrees(mem, pd, used, v);
      }
    }

    /** pagedir_create, in a page obtained from palloc: nothing is mapped. The
        user half of the kernel's directory `init` is empty. */
    constructor (mem: Words, used: set<Addr>, page: bv32, init: bv32)
      requires Total(mem) && KernelPage(page) && Addr(page) !in used
      requires KernelPage(init) && Addr(init) in used
      requires forall i :: i < 0x300 ==> Pde(mem, init, i) == 0
      ensures Valid() && pd == page && this.used == used + {Addr(page)}
      ensures forall v :: User(v) ==> Map(v) == None
      ensures SameBut(mem, this.mem, page) && forall i :: i < 1024 ==> Pde(this.mem, pd, i) == Pde(mem, init, i)
    {
      hide WordAt, PdeGetPt, Present, PdNo, PtNo, User, Decode;
      pd := page;
      this.used := used + {Addr(page)};
      var out := FillPage(mem, page, PageAt(init));
      this.mem := out;
      new;
      forall i: bv32 | i < 0x300
        ensures !HasTable(this.mem, pd, i)
      {
        assert Pde(mem, init, i) == 0;
        assert SourceWord(mem, PageAt(init), i) == 0;
      }
      forall v | User(v)
        ensures Map(v) == None
      {
        IndexRange(v);
      }
    }

    /** lookup_page: the address of the entry for `va`. A page table is made
        when `create` asks for one and palloc has a page; that maps nothing. */
    method LookupPage(va: bv32, create: bool, page: Option<bv32>) returns (r: Option<Addr>)
      requires Valid() && User(va)
      requires page.Some? ==> KernelPage(page.value) && Addr(page.value) !in used
      modifies this
      ensures Valid()
      ensures forall v :: User(v) ==> Map(v) == old(Map(v))
      ensures r.Some? <==> HasTable(mem, pd, PdNo(va))
      ensures r.Some? <==> old(HasTable(mem, pd, PdNo(va))) || (create && page.Some?)
      ensures r.Some? ==> r.value == WordAt(TableOf(mem, pd, PdNo(va)), PtNo(va))
      ensures !create ==> mem == old(mem) && used == old(used)
      ensures KernelKept(old(mem), mem, pd)
      ensures used == old(used) +
        if create && page.Some? && old(Pde(mem, pd, PdNo(va))) == 0 then {Addr(page.value)} else {}
    {
      hide WordAt, PdeGetPt, PdeCreate, Present, KernelPage, Ofs, PageOf, PdNo, PtNo, User, Decode, Filled;
      var pde := WordAt(pd, PdNo(va));
      if mem[pde] == 0 {
        if !create || page.None? {
          return None;
        }
        IndexRange(va);
        KernelAligned(page.value);
        var z := FillPage(mem, page.value, Repeat(0));
        NewTableGood(mem, z, pd, used, PdNo(va), page.value);
        AccessibleNew(mem, z, pd, used, PdNo(va), page.value);
        UserIndices();
        mem := z[pde := PdeCreate(page.value)];
        used := used + {Addr(page.value)};
      }
      var pt := PdeGetPt(mem[pde]);
      r := Some(WordAt(pt, PtNo(va)));
    }

    /** pagedir_set_page: one new binding, or no change for want of a page.
        The page must not be mapped yet. */
    method SetPage(upage: bv32, kpage: bv32, writable: bool, page: Option<bv32>) returns (ok: bool)
      requires Valid() && User(upage) && Ofs(upage) == 0 && KernelPage(kpage)
      requires Map(upage) == None
      requires page.Some? ==> KernelPage(page.value) && Addr(page.value) !in used
      modifies this
      ensures Valid()
      ensures ok <==> old(HasTable(mem, pd, PdNo(upage))) || page.Some?
      ensures forall v :: User(v) ==>
        Map(v) == if ok && PageOf(v) == upage then Some(Frame(kpage, writable)) else old(Map(v))
      ensures forall v :: User(v) ==>
        Hardware(v) ==
        if ok && PageOf(v) == upage then Some(Access(ToPhysical(kpage), true, writable)) else old(Hardware(v))
      ensures KernelKept(old(mem), mem, pd)
      ensures used == old(used) + if page.Some? && !old(HasTable(mem, pd, PdNo(upage))) then {Addr(page.value)} else {}
    {
      hide WordAt, PdeGetPt, Present, KernelPage, Ofs, PageOf, PdNo, PtNo, User, PteCreateUser, Good, Accessible,
        Walk, ToPhysical;
      HardwareAgrees();
      var pte := LookupPage(upage, true, page);
      if pte.None? {
        HardwareAgrees();
        return false;
      }
      SetBinding(mem, pd, used, upage, PteCreateUser(kpage, writable));
      KeepsAccess(mem, pd, used, upage, PteCreateUser(kpage, writable)) by { PteRights(kpage, writable); }
      PteRoundTrip(kpage, writable);
      AlignedIsPage(upage);
      GoodTotal(mem, pd, used);
      mem := mem[pte.value := PteCreateUser(kpage, writable)];
      HardwareAgrees();
      ok := true;
    }

    /** pagedir_get_page: agrees with the map at every offset. */
    method GetPage(uaddr: bv32) returns (r: Option<bv32>)
      requires Valid() && User(uaddr)
      modifies this
      ensures mem == old(mem) && used == old(used)
      ensures r.None? <==> Map(PageOf(uaddr)).None?
      ensures r.Some? ==> PageOf(r.value) == Map(PageOf(uaddr)).value.page && Ofs(r.value) == Ofs(uaddr)
    {
      hide WithOfs, Present, PteGetPage, Writable, WordAt, PdeGetPt, KernelPage, Ofs, PageOf, PdNo, PtNo, User, Good;
      IndicesOfPage(uaddr);
      GoodTotal(mem, pd, used);
      var pte := LookupPage(uaddr, false, None);
      if pte.Some? && Present(mem[pte.value]) {
        FrameAligned(mem[pte.value]);
        WithOfsBits(PteGetPage(mem[pte.value]), uaddr);
        r := Some(WithOfs(PteGetPage(mem[pte.value]), uaddr));
      } else {
        r := None;
      }
    }

    /** pagedir_clear_page: the binding, if any, is gone. */
    method ClearPage(upage: bv32)
      requires Valid() && User(upage) && Ofs(upage) == 0
      modifies this
      ensures Valid()
      ensures forall v :: User(v) ==> Map(v) == if PageOf(v) == upage then None else old(Map(v))
      ensures forall v :: User(v) ==> Hardware(v) == if PageOf(v) == upage then None else old(Hardware(v))
      ensures KernelKept(old(mem), mem, pd) && used == old(used)
    {
      hide WordAt, PdeGetPt, KernelPage, Ofs, PageOf, PdNo, PtNo, User, Good, NotPresent, Writable, Accessible, Walk;
      HardwareAgrees();
      AlignedIsPage(upage);
      SamePage(upage);
      GoodTotal(mem, pd, used);
      var pte := LookupPage(upage, false, None);
      if pte.Some? && Present(mem[pte.value]) {
        var e := NotPresent(mem[pte.value]);
        NotPresentBits(mem[pte.value]);
        SetBinding(mem, pd, used, upage, e);
        KeepsAccess(mem, pd, used, upage, e);
        mem := mem[pte.value := e];
      }
      HardwareAgrees();
    }

    /** palloc_free_page, which demands a page in use and fills it. */
    method FreePage(a: Addr)
      requires Total(mem) && a in used && Ofs(a.bits) == 0
      modifies this
      ensures used == old(used) - {a} && SameBut(old(mem), mem, a.bits)
      ensures Filled(old(mem), mem, a.bits, Repeat(0xcccccccc), 1024)
    {
      mem := FillPage(mem, a.bits, Repeat(0xcccccccc));
      used := used - {a};
    }

    /** One round of the inner loop of pagedir_destroy. `was` is the memory
        before, which the pages still in use have kept. */
    method FreeFrame(i: bv32, j: bv32, ghost was: Words, ghost all: set<Addr>)
      requires Good(was, pd, all) && Injective(was, pd, all) && i < 0x300 && j < 1024 && HasTable(was, pd, i)
      requires LeftInRow(used, all, was, pd, i, j) && Intact(mem, was, used)
      modifies this
      ensures LeftInRow(used, all, was, pd, i, Next(j)) && Intact(mem, was, used)
    {
      hide Good, Injective, RowsHave, RowHas, WordAt, PdeGetPt, Writable, PteGetPage, Present, Next, Ofs, SameBut;
      GoodTotal(was, pd, all);
      ReadsInUse(was, pd, all, used, i, j);
      var pt := PdeGetPt(mem[WordAt(pd, i)]);
      assert pt == TableOf(was, pd, i);
      var e := mem[WordAt(pt, j)];
      assert e == Pte(was, pd, i, j);
      ghost var mem0, used0 := mem, used;
      if Present(e) {
        FrameStillUsed(was, pd, all, i, j, Addr(PteGetPage(e)));
        FrameAligned(e);
        FreePage(Addr(PteGetPage(e)));
        IntactBut(was, mem0, mem, used0, Addr(PteGetPage(e)));
      }
      forall a
        ensures RowHas(was, pd, i, Next(j), a) <==>
                RowHas(was, pd, i, j, a) || (Present(e) && a == Addr(PteGetPage(e)))
      {
        RowStep(was, pd, i, j, a);
      }
    }

    /** The inner loop: the frames mapped by table `i`. */
    method FreeFrames(i: bv32, ghost was: Words, ghost all: set<Addr>)
      requires Good(was, pd, all) && Injective(was, pd, all) && i < 0x300 && HasTable(was, pd, i)
      requires Left(used, all, was, pd, i) && Intact(mem, was, used)
      modifies this
      ensures LeftInRow(used, all, was, pd, i, 1024) && Intact(mem, was, used)
    {
      hide Good, Injective, LeftInRow, Left, Next, HasTable, Below, Rest, Intact;
      GoodTotal(was, pd, all);
      RowEmpty(used, all, was, pd, i);
      var j: bv32 := 0;
      assert Below(j, 1024) by { ZeroBelow(); }
      while Below(j, 1024)
        invariant Below(j, 1024) || j == 1024
        invariant LeftInRow(used, all, was, pd, i, j) && Intact(mem, was, used)
        decreases Rest(j)
      {
        NextFrame(j);
        FreeFrame(i, j, was, all);
        j := Next(j);
      }
    }

    /** One round of the outer loop. */
    method FreeTable(i: bv32, ghost was: Words, ghost all: set<Addr>)
      requires Good(was, pd, all) && Injective(was, pd, all) && Below(i, 0x300)
      requires Left(used, all, was, pd, i) && Intact(mem, was, used)
      modifies this
      ensures Left(used, all, was, pd, Next(i)) && Intact(mem, was, used)
    {
      hide Good, Injective, RowsHave, RowHas, WordAt, PdeGetPt, Present, Next, Ofs, SameBut;
      GoodTotal(was, pd, all);
      GoodPresent(was, pd, all, i);
      RowEmpty(used, all, was, pd, i);
      ReadsInUse(was, pd, all, used, i, 0);
      assert mem[WordAt(pd, i)] == Pde(was, pd, i);
      if Present(mem[WordAt(pd, i)]) {
        var pt := PdeGetPt(mem[WordAt(pd, i)]);
        FreeFrames(i, was, all);
        TableStillUsed(was, pd, all, i, Addr(pt));
        ghost var mem0, used0 := mem, used;
        FreePage(Addr(pt));
        IntactBut(was, mem0, mem, used0, Addr(pt));
      } else {
        NoRow(was, pd, i);
      }
      forall a
        ensures RowsHave(was, pd, Next(i), a) <==>
          RowsHave(was, pd, i, a) || RowHas(was, pd, i, 1024, a) || TableAt(was, pd, i, a)
      {
        RowsStep(was, pd, i, a);
      }
    }

    /** The outer loop: every table below the kernel's part of the directory. */
    method FreeTables(ghost was: Words, ghost all: set<Addr>)
      requires Good(was, pd, all) && Injective(was, pd, all)
      requires Left(used, all, was, pd, 0) && Intact(mem, was, used)
      modifies this
      ensures Left(used, all, was, pd, 0x300) && Intact(mem, was, used)
    {
      hide *;
      GoodTotal(was, pd, all);
      var i: bv32 := 0;
      assert Below(i, 0x300) by { ZeroBelow(); }
      while Below(i, 0x300)
        invariant Below(i, 0x300) || i == 0x300
        invariant Left(used, all, was, pd, i) && Intact(mem, was, used)
        decreases Rest(i)
      {
        NextTable(i);
        FreeTable(i, was, all);
        i := Next(i);
      }
    }

    /** pagedir_destroy: every palloc_free_page it makes is of a page still in
        use, so each frame, each page table and the directory are freed once,
        and no other page is freed. It reads no page that it has freed, and
        the pages left in use keep their contents. */
    method Destroy()
      requires Valid() && Injective(mem, pd, used)
      modifies this
      ensures Total(old(mem)) && Intact(mem, old(mem), used)
      ensures forall a :: a in used <==> a in old(used) && a != Addr(pd) && !RowsHave(old(mem), pd, 0x300, a)
    {
      hide Good, Injective, RowsHave, Left, Intact, SameBut, Ofs;
      GoodTotal(mem, pd, used);
      ghost var all, was := used, mem;
      RowsEmpty(used, mem, pd);
      StartsIntact(mem, used);
      FreeTables(was, all);
      DirectoryStillUsed(was, pd, all);
      LeftMeans(used, all, was, pd, 0x300);
      GoodAligned(was, pd, all);
      ghost var mem0, used0 := mem, used;
      IntactTotal(mem, was, used);
      FreePage(Addr(pd));
      IntactBut(was, mem0, mem, used0, Addr(pd));
    }

    lemma SamePage(up: bv32)
      requires Valid()
      ensures forall v :: PageOf(v) == PageOf(up) ==> Map(v) == Map(up)
    {
      hide PageOf, PdNo, PtNo, Lookup;
      forall v | PageOf(v) == PageOf(up)
        ensures Map(v) == Map(up)
      {
        Indices(v, up);
      }
    }
  }

  /** What the loops over `j` go down by. */
  function Rest(j: bv32): bv32 { !j }

  lemma NextFrame(j: bv32)
    requires Below(j, 1024)
    ensures j < 1024 && (Below(Next(j), 1024) || Next(j) == 1024) && Rest(Next(j)) < Rest(j)
  {
  }

  lemma NextTable(i: bv32)
    requires Below(i, 0x300)
    ensures (Below(Next(i), 0x300) || Next(i) == 0x300) && Rest(Next(i)) < Rest(i)
  {
  }

  lemma ZeroBelow()
    ensures Below(0, 0x300) && Below(0, 1024)
  {
  }

  lemma RowEmpty(used: set<Addr>, all: set<Addr>, mem: Words, pd: bv32, i: bv32)
    requires Total(mem) && Left(used, all, mem, pd, i)
    ensures LeftInRow(used, all, mem, pd, i, 0)
  {
  }

  lemma RowsEmpty(used: set<Addr>, mem: Words, pd: bv32)
    requires Total(mem)
    ensures Left(used, used, mem, pd, 0)
  {
  }

  lemma LeftMeans(used: set<Addr>, all: set<Addr>, mem: Words, pd: bv32, i: bv32)
    requires Total(mem) && Left(used, all, mem, pd, i)
    ensures forall a :: a in used <==> a in all && !RowsHave(mem, pd, i, a)
  {
  }

  /** An entry in the user half is zero or present. */
  lemma GoodPresent(mem: Words, pd: bv32, used: set<Addr>, i: bv32)
    requires Good(mem, pd, used) && i < 0x300
    ensures Present(Pde(mem, pd, i)) <==> HasTable(mem, pd, i)
  {
    assert !Present(0);
  }

  lemma NoRow(mem: Words, pd: bv32, i: bv32)
    requires Total(mem) && !HasTable(mem, pd, i)
    ensures forall a :: !RowHas(mem, pd, i, 1024, a) && !TableAt(mem, pd, i, a)
  {
  }

  lemma StartsIntact(mem: Words, used: set<Addr>)
    requires Total(mem)
    ensures Intact(mem, mem, used)
  {
  }

  lemma IntactTotal(mem: Words, was: Words, used: set<Addr>)
    requires Intact(mem, was, used)
    ensures Total(mem)
  {
  }

  lemma GoodAligned(mem: Words, pd: bv32, used: set<Addr>)
    requires Good(mem, pd, used)
    ensures Ofs(pd) == 0
  {
  }

  lemma GoodTotal(mem: Words, pd: bv32, used: set<Addr>)
    requires Good(mem, pd, used)
    ensures Total(mem)
  {
  }

  lemma UserIndices()
    ensures forall v :: User(v) ==> PdNo(v) < 0x300 && PtNo(v) < 1024
  {
    hide PdNo, PtNo, User;
    forall v | User(v)
      ensures PdNo(v) < 0x300 && PtNo(v) < 1024
    {
      IndexRange(v);
    }
  }
}
