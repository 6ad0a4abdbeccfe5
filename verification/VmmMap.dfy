/** Mapping, unmapping and translating through four levels of tables. */
module VmmMap {
  import opened Machine
  import opened Words
  import opened Mmu
  import opened Pte
  import opened PageTree
  import opened PhysMem
  import opened VmmSpec

  const PAGE_MASK: bv64 := 0xfff
  const NOT_MAPPED: bv64 := 0xffff_ffff_ffff_ffff

  function PathOf(va: bv64): (p: Path)
    ensures p.Valid()
  {
    Path(((va >> 39) & 0x1ff) as nat, ((va >> 30) & 0x1ff) as nat, ((va >> 21) & 0x1ff) as nat,
         ((va >> 12) & 0x1ff) as nat)
  }

  /** Bits 12..47 of an address: its page, as far as translation can tell. */
  function PageOf(va: bv64): bv64 {
    (va >> 12) & 0xf_ffff_ffff
  }

  function Slice(va: bv64, k: nat): bv64 {
    if k == 4 then (va >> 39) & 0x1ff
    else if k == 3 then (va >> 30) & 0x1ff
    else if k == 2 then (va >> 21) & 0x1ff
    else (va >> 12) & 0x1ff
  }

  lemma PathSlices(va: bv64)
    ensures forall k :: 1 <= k <= 4 ==> PathOf(va).At(k) == Number(Slice(va, k))
  {
  }

  // The slices of the page number, level by level.
  lemma SlicesOfPage(x: bv64, y: bv64)
    requires PageOf(x) == PageOf(y)
    ensures Slice(x, 4) == Slice(y, 4) && Slice(x, 3) == Slice(y, 3)
    ensures Slice(x, 2) == Slice(y, 2) && Slice(x, 1) == Slice(y, 1)
  {
  }

  lemma PageOfSlices(x: bv64, y: bv64)
    requires Slice(x, 4) == Slice(y, 4) && Slice(x, 3) == Slice(y, 3)
    requires Slice(x, 2) == Slice(y, 2) && Slice(x, 1) == Slice(y, 1)
    ensures PageOf(x) == PageOf(y)
  {
  }

  /** Two addresses take the same path through the tables exactly if they lie in the same page. */
  lemma PathIsPage(x: bv64, y: bv64)
    ensures PathOf(x) == PathOf(y) <==> PageOf(x) == PageOf(y)
  {
    PathSlices(x);
    PathSlices(y);
    hide PathOf, PageOf, Slice, Number;
    if PathOf(x) == PathOf(y) {
      NumberInjective(Slice(x, 4), Slice(y, 4));
      NumberInjective(Slice(x, 3), Slice(y, 3));
      NumberInjective(Slice(x, 2), Slice(y, 2));
      NumberInjective(Slice(x, 1), Slice(y, 1));
      PageOfSlices(x, y);
    } else if PageOf(x) == PageOf(y) {
      SlicesOfPage(x, y);
      SamePathAt(PathOf(x), PathOf(y));
    }
  }

  lemma SamePathAt(p: Path, q: Path)
    requires p.At(4) == q.At(4) && p.At(3) == q.At(3) && p.At(2) == q.At(2) && p.At(1) == q.At(1)
    ensures p == q
  {
  }

  lemma SliceSteps(va: bv64)
    ensures (va >> 12) & 0x1ff == Low(RightTwelve(va), 0x1ff)
    ensures (va >> 21) & 0x1ff == Low(RightNine(RightTwelve(va)), 0x1ff)
    ensures (va >> 30) & 0x1ff == Low(RightNine(RightNine(RightTwelve(va))), 0x1ff)
    ensures (va >> 39) & 0x1ff == Low(RightNine(RightNine(RightNine(RightTwelve(va)))), 0x1ff)
  {
  }

  lemma PathNumbers(va: bv64)
    ensures var p, w := PathOf(va), RightTwelve(va);
      && p.pt == Number(Low(w, 0x1ff)) && p.pd == Number(Low(RightNine(w), 0x1ff))
      && p.pdpt == Number(Low(RightNine(RightNine(w)), 0x1ff))
      && p.pml4 == Number(Low(RightNine(RightNine(RightNine(w))), 0x1ff))
  {
    SliceSteps(va);
    hide Low, RightNine, RightTwelve;
  }

  /** The indices that the kernel computes are the processor's. */
  lemma PathIndices(va: bv64)
    ensures OnPath(PathOf(va), Number(va))
  {
    hide PathOf, Low, RightNine, RightTwelve, Number;
    PathNumbers(va);
    Quotients(Number(va));
    var w := RightTwelve(va);
    TwelveRight(va);
    NineRight(w);
    NineRight(RightNine(w));
    NineRight(RightNine(RightNine(w)));
    LowNine(w);
    LowNine(RightNine(w));
    LowNine(RightNine(RightNine(w)));
    LowNine(RightNine(RightNine(RightNine(w))));
  }

  lemma AgreeIsEqual(p: Path, q: Path)
    ensures Agree(p, q, 1, 4) <==> p == q
  {
    assert Agree(p, q, 1, 4) == (p.pml4 == q.pml4 && Agree(p, q, 1, 3));
    assert Agree(p, q, 1, 3) == (p.pdpt == q.pdpt && Agree(p, q, 1, 2));
    assert Agree(p, q, 1, 2) == (p.pd == q.pd && Agree(p, q, 1, 1));
    assert Agree(p, q, 1, 1) == (p.pt == q.pt && Agree(p, q, 1, 0));
  }

  /** The leaf entry that maps a page to physical address pa. */
  function LeafEntry(pa: bv64, flags: bv64): bv64 {
    (pa & !PAGE_MASK) | flags | PRESENT
  }

  /** Flags for tables made on the way to a leaf with these flags. */
  function TableFlagsFor(flags: bv64): bv64 {
    if flags & USER != 0 then PRESENT | WRITABLE | USER else PRESENT | WRITABLE
  }

  lemma TableFlagsGood(flags: bv64)
    ensures TableFlags(TableFlagsFor(flags))
  {
    assert forall f: bv64 :: f == PRESENT | WRITABLE || f == PRESENT | WRITABLE | USER ==> TableFlags(f);
  }

  lemma LeafPresent(pa: bv64, flags: bv64)
    ensures Present(LeafEntry(pa, flags))
  {
  }

  lemma LeafAddress(pa: bv64, flags: bv64)
    requires pa & !(ADDR_MASK | PAGE_MASK) == 0 && flags & ADDR_MASK == 0
    ensures LeafEntry(pa, flags) & ADDR_MASK == pa & !PAGE_MASK
  {
  }

  lemma LeafFrameBits(b: bv40, flags: bv64)
    requires flags & ADDR_MASK == 0
    ensures FrameBits(LeafEntry(AddrBits(b), flags)) == b
  {
  }

  /** The leaf entry for a frame points to it. */
  lemma LeafFrame(f: Pfn, flags: bv64)
    requires flags & ADDR_MASK == 0
    ensures Frame(LeafEntry(Addr(f), flags)) == f
  {
    hide AddrBits, FrameBits, LeafEntry;
    var b := BitsOf(f);
    ToNatAndBack(b);
    LeafFrameBits(b, flags);
    assert Addr(f) == AddrBits(b);
  }

  /** What vmm_map_page does to memory, and its result. */
  ghost function Mapped(s: Phys, root: Pfn, va: bv64, pa: bv64, flags: bv64): (Phys, bool) {
    Plant(s, root, 4, PathOf(va), TableFlagsFor(flags), LeafEntry(pa, flags))
  }

  /** What vmm_unmap_page does to memory, and its result. */
  ghost function Unmapped(s: Phys, root: Pfn, va: bv64): (Phys, bool) {
    if va & PAGE_MASK != 0 then (s, false)
    else if Present(Walk(s.mem, root, 4, PathOf(va))) then (Prune(s, root, 4, PathOf(va)).0, true)
    else (s, true)
  }

  /** The physical address a leaf entry gives to va, or all ones if there is no mapping. */
  function Target(e: bv64, va: bv64): bv64 {
    if Present(e) then (e & ADDR_MASK) + (va & PAGE_MASK) else NOT_MAPPED
  }

  function AddressField(e: bv64): bv64 {
    e & ADDR_MASK
  }

  lemma AddressParts(e: bv64)
    ensures Apart(AddressField(e), 0xfff)
    ensures RightTwelve(AddressField(e)) == Low(RightTwelve(e), 0xff_ffff_ffff)
  {
  }

  /** The address field of an entry is the address of its frame. */
  lemma AddressNumber(e: bv64)
    ensures Number(AddressField(e)) == PointsTo(Number(e)) * 0x1000
  {
    AddressParts(e);
    hide AddressField, Low, RightTwelve, Number, Apart;
    ClearTwelve(AddressField(e));
    TwelveRight(AddressField(e));
    TwelveRight(e);
    LowForty(RightTwelve(e));
  }

  lemma OffsetJoins(e: bv64, va: bv64)
    ensures Apart(AddressField(e), Low(va, 0xfff))
    ensures (e & ADDR_MASK) + (va & PAGE_MASK) == Join(AddressField(e), Low(va, 0xfff))
  {
  }

  lemma AllOnes()
    ensures Number(NOT_MAPPED) == 0xffff_ffff_ffff_ffff
  {
  }

  lemma NumberOfOne()
    ensures Number(0) == 0 && Number(1) == 1
  {
  }

  predicate Below52(pa: bv64) {
    pa <= 0xf_ffff_ffff_ffff
  }

  lemma LowAddressBits(pa: bv64)
    requires RightForty(RightTwelve(pa)) == 0
    ensures Below52(pa)
  {
  }

  lemma SmallAddress(pa: bv64)
    requires Number(pa) < 0x10_0000_0000_0000
    ensures Below52(pa)
  {
    hide *;
    NumberOfOne();
    TwelveRight(pa);
    FortyRight(RightTwelve(pa));
    NumberInjective(RightForty(RightTwelve(pa)), 0);
    LowAddressBits(pa);
  }

  lemma PlainField(flags: bv64)
    requires PlainFlags(Number(flags))
    ensures AddressField(flags) == 0
  {
    AddressNumber(flags);
    hide AddressField, Number, PointsTo;
    NumberOfOne();
    NumberInjective(AddressField(flags), 0);
  }

  lemma WithPresentBit(flags: bv64)
    ensures if Odd(flags) then Join(flags, 1) == flags else Apart(flags, 1)
  {
  }

  lemma LeafParts(pa: bv64, flags: bv64)
    ensures LeafEntry(pa, flags) == Join(High(pa, 0xfff), Join(flags, 1))
    ensures Below52(pa) && AddressField(flags) == 0 ==> Apart(High(pa, 0xfff), Join(flags, 1))
  {
  }

  /** The leaf entry is the sum of its page's address, the flags and the present bit. */
  lemma LeafNumber(pa: bv64, flags: bv64)
    requires Number(pa) < 0x10_0000_0000_0000 && PlainFlags(Number(flags))
    ensures Number(LeafEntry(pa, flags)) == LeafWord(Number(pa), Number(flags))
  {
    hide Number, Join, High, LeafEntry, AddressField, PlainFlags, Apart, Below52, IsPresent;
    SmallAddress(pa);
    PlainField(flags);
    LeafParts(pa, flags);
    FlagsNumber(flags);
    LowTwelve(pa);
    JoinAdds(High(pa, 0xfff), Join(flags, 1));
  }

  lemma FlagsNumber(flags: bv64)
    ensures Number(Join(flags, 1)) == Number(flags) + if IsPresent(Number(flags)) then 0 else 1
  {
    WithPresentBit(flags);
    NumberOfOne();
    hide Number, Join, Apart, Odd;
    Halve(flags);
    if !Odd(flags) {
      JoinAdds(flags, 1);
    }
  }

  lemma TargetNumber(e: bv64, va: bv64)
    ensures Number(Target(e, va)) ==
      if IsPresent(Number(e)) then PointsTo(Number(e)) * 0x1000 + Number(va) % 0x1000 else 0xffff_ffff_ffff_ffff
  {
    OffsetJoins(e, va);
    AllOnes();
    hide AddressField, Low, Number, Apart, Join, Present, IsPresent, PointsTo;
    PresentNumber(e);
    JoinAdds(AddressField(e), Low(va, 0xfff));
    AddressNumber(e);
    LowTwelve(va);
  }

  /** What VirtToPhys computes is the processor's translation. */
  lemma TargetTranslates(m: Mem, root: Pfn, va: bv64)
    ensures Number(Target(Walk(m, root, 4, PathOf(va)), va)) == Translate(m, root, Number(va))
  {
    hide Target, Walk, PathOf, Number, EntryAt, PointsTo, IsPresent, OnPath;
    PathIndices(va);
    WalkByNumbers(m, root, 4, PathOf(va), Number(va));
    TargetNumber(Walk(m, root, 4, PathOf(va)), va);
  }

  /** True if no word of the table is in use. */
  method IsTableEmpty(table: Page) returns (empty: bool)
    ensures empty <==> table == ZeroPage()
  {
    for i := 0 to ENTRIES
      invariant forall j :: 0 <= j < i ==> table[j] == 0
    {
      if table[i] != 0 {
        return false;
      }
    }
    assert table == ZeroPage();
    return true;
  }

  method GetNextLevel(pm: PhysicalMemory, t: Pfn, i: nat, allocate: bool, flags: bv64) returns (next: NextTable)
    requires pm.Valid() && i < ENTRIES
    modifies pm`usedPages, pm`freePages, pm`mem, pm.bitmap
    ensures pm.Valid()
    ensures (pm.View(), next) == NextLevel(old(pm.View()), t, i, allocate, flags)
  {
    hide Present, Frame, Entry;
    var entry := pm.mem[t][i];
    if Present(entry) {
      return Table(Frame(entry));
    }
    if !allocate {
      return NoTable;
    }
    var f := pm.AllocatePage();
    if f == 0 {
      return NoTable;
    }
    pm.mem := pm.mem[f := ZeroPage()];
    var newFlags := if flags != 0 then flags else PRESENT | WRITABLE;
    pm.mem := Write(pm.mem, t, i, Entry(f, newFlags));
    return Table(f);
  }

  method MapPage(pm: PhysicalMemory, root: Pfn, va: bv64, pa: bv64, flags: bv64) returns (ok: bool)
    requires pm.Valid()
    modifies pm`usedPages, pm`freePages, pm`mem, pm.bitmap
    ensures pm.Valid()
    ensures (pm.View(), ok) == Mapped(old(pm.View()), root, va, pa, flags)
  {
    hide Present, Frame, Entry, NextLevel, LeafEntry, TableFlagsFor, PathOf;
    var p := PathOf(va);
    var tableFlags := TableFlagsFor(flags);
    var pdpt := GetNextLevel(pm, root, p.pml4, true, tableFlags);
    if pdpt.NoTable? {
      return false;
    }
    var pd := GetNextLevel(pm, pdpt.frame, p.pdpt, true, tableFlags);
    if pd.NoTable? {
      return false;
    }
    var pt := GetNextLevel(pm, pd.frame, p.pd, true, tableFlags);
    if pt.NoTable? {
      return false;
    }
    pm.mem := Write(pm.mem, pt.frame, p.pt, LeafEntry(pa, flags));
    return true;
  }

  /** vmm_get_next_level when it may not allocate. */
  function Down(e: bv64): NextTable {
    if Present(e) then Table(Frame(e)) else NoTable
  }

  lemma DownIsNextLevel(s: Phys, t: Pfn, i: nat, flags: bv64)
    requires i < ENTRIES
    ensures NextLevel(s, t, i, false, flags) == (s, Down(s.mem[t][i]))
  {
    hide Present, Frame;
  }

  /** The page table that three steps of vmm_get_next_level lead to on path p, none of them allocating. */
  ghost function Descended(s: Phys, root: Pfn, p: Path): NextTable
    requires p.Valid()
  {
    var pdpt := NextLevel(s, root, p.pml4, false, 0).1;
    if pdpt.NoTable? then NoTable
    else
      var pd := NextLevel(s, pdpt.frame, p.pdpt, false, 0).1;
      if pd.NoTable? then NoTable else NextLevel(s, pd.frame, p.pd, false, 0).1
  }

  /** Find the three tables below root on path p, without making any. */
  method FindTables(m: Mem, root: Pfn, p: Path, ghost s: Phys) returns (found: bool, pdpt: Pfn, pd: Pfn, pt: Pfn)
    requires p.Valid() && s.mem == m
    ensures Descended(s, root, p) == if found then Table(pt) else NoTable
    ensures found ==>
              && pdpt == Frame(m[root][p.pml4]) && pd == Frame(m[pdpt][p.pdpt]) && pt == Frame(m[pd][p.pd])
              && Walk(m, root, 4, p) == m[pt][p.pt]
    ensures !found ==> Walk(m, root, 4, p) == 0
  {
    hide Present, Frame, NextLevel;
    pdpt, pd, pt := 0, 0, 0;
    DownIsNextLevel(s, root, p.pml4, 0);
    var next := Down(m[root][p.pml4]);
    if next.NoTable? {
      return false, pdpt, pd, pt;
    }
    pdpt := next.frame;
    DownIsNextLevel(s, pdpt, p.pdpt, 0);
    next := Down(m[pdpt][p.pdpt]);
    if next.NoTable? {
      return false, pdpt, pd, pt;
    }
    pd := next.frame;
    DownIsNextLevel(s, pd, p.pd, 0);
    next := Down(m[pd][p.pd]);
    if next.NoTable? {
      return false, pdpt, pd, pt;
    }
    pt := next.frame;
    return true, pdpt, pd, pt;
  }

  method UnmapPage(pm: PhysicalMemory, root: Pfn, va: bv64) returns (ok: bool)
    requires pm.Valid()
    modifies pm`usedPages, pm`freePages, pm`mem, pm.bitmap
    ensures pm.Valid()
    ensures (pm.View(), ok) == Unmapped(old(pm.View()), root, va)
  {
    if va & PAGE_MASK != 0 {
      return false;
    }
    hide Present, Frame, PathOf, Prune, Walk;
    ZeroAbsent();
    var p := PathOf(va);
    var found, pdpt, pd, pt := FindTables(pm.mem, root, p, Phys(pm.mem, {}, 0));
    if !found {
      return true;
    }
    if !Present(pm.mem[pt][p.pt]) {
      return true;
    }
    ClearAndReclaim(pm, root, pdpt, pd, pt, p);
    return true;
  }

  lemma ZeroAbsent()
    ensures !Present(0)
  {
  }

  /** If table c, in slot i of t, is empty: clear the slot and free the table. */
  method ReclaimIfEmpty(pm: PhysicalMemory, t: Pfn, i: nat, c: Pfn) returns (empty: bool)
    requires pm.Valid() && i < ENTRIES
    modifies pm`usedPages, pm`freePages, pm`mem, pm.bitmap
    ensures pm.Valid()
    ensures (pm.View(), empty) == Unlinked(old(pm.View()), true, t, i, c)
  {
    hide Released;
    empty := IsTableEmpty(pm.mem[c]);
    if empty {
      pm.mem := Write(pm.mem, t, i, 0);
      pm.FreePage(c * PAGE_SIZE);
    }
  }

  // The second half of unmapping: clear the entry, then free what became empty, bottom up.
  method ClearAndReclaim(pm: PhysicalMemory, pml4: Pfn, pdpt: Pfn, pd: Pfn, pt: Pfn, p: Path)
    requires pm.Valid() && p.Valid()
    requires pdpt == Frame(pm.mem[pml4][p.pml4]) && pd == Frame(pm.mem[pdpt][p.pdpt]) && pt == Frame(pm.mem[pd][p.pd])
    modifies pm`usedPages, pm`freePages, pm`mem, pm.bitmap
    ensures pm.Valid()
    ensures pm.View() == Prune(old(pm.View()), pml4, 4, p).0
  {
    ghost var s := pm.View();
    PruneIs(s, pml4, pdpt, pd, pt, p);
    hide Present, Frame, Prune, Unlinked, Write;
    pm.mem := Write(pm.mem, pt, p.pt, 0);
    var empty := ReclaimIfEmpty(pm, pd, p.pd, pt);
    if empty {
      empty := ReclaimIfEmpty(pm, pdpt, p.pdpt, pd);
      if empty {
        empty := ReclaimIfEmpty(pm, pml4, p.pml4, pdpt);
      }
    }
  }

  // The four levels of pruning, spelled out.
  lemma PruneIs(s: Phys, pml4: Pfn, pdpt: Pfn, pd: Pfn, pt: Pfn, p: Path)
    requires p.Valid()
    requires pdpt == Frame(s.mem[pml4][p.pml4]) && pd == Frame(s.mem[pdpt][p.pdpt]) && pt == Frame(s.mem[pd][p.pd])
    ensures var s1 := Phys(Write(s.mem, pt, p.pt, 0), s.free, s.top);
      var (s2, e2) := Unlinked(s1, true, pd, p.pd, pt);
      var (s3, e3) := Unlinked(s2, true, pdpt, p.pdpt, pd);
      var (s4, e4) := Unlinked(s3, true, pml4, p.pml4, pdpt);
      Prune(s, pml4, 4, p).0 == if !e2 then s2 else if !e3 then s3 else s4
  {
    hide Frame, Write, Released;
    assert Prune(s, pt, 1, p) == (Phys(Write(s.mem, pt, p.pt, 0), s.free, s.top), true);
    var (s1, e1) := Prune(s, pt, 1, p);
    assert Prune(s, pd, 2, p) == Unlinked(s1, e1, pd, p.pd, pt);
    var (s2, e2) := Prune(s, pd, 2, p);
    assert Prune(s, pdpt, 3, p) == Unlinked(s2, e2, pdpt, p.pdpt, pd);
    var (s3, e3) := Prune(s, pdpt, 3, p);
    assert Prune(s, pml4, 4, p) == Unlinked(s3, e3, pml4, p.pml4, pdpt);
  }

  method VirtToPhys(pm: PhysicalMemory, root: Pfn, va: bv64) returns (pa: bv64)
    ensures pa == Target(Walk(pm.mem, root, 4, PathOf(va)), va)
    ensures Number(pa) == Translate(pm.mem, root, Number(va))
  {
    TargetTranslates(pm.mem, root, va);
    hide Frame, PathOf, Walk, Present, Number, Translate;
    ZeroAbsent();
    var p := PathOf(va);
    var found, pdpt, pd, pt := FindTables(pm.mem, root, p, Phys(pm.mem, {}, 0));
    if !found {
      return NOT_MAPPED;
    }
    var entry := pm.mem[pt][p.pt];
    if !Present(entry) {
      return NOT_MAPPED;
    }
    return (entry & ADDR_MASK) + (va & PAGE_MASK);
  }
}
