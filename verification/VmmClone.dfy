/** Cloning a pagemap, page by page, and releasing a clone. */
module VmmClone {
  import opened Machine
  import opened Words
  import opened Pte
  import opened PageTree
  import opened PhysMem
  import opened VmmSpec
  import opened CloneSpec

  /** A higher-half direct map begins above every address a page-table index can name. */
  predicate HigherHalf(hhdm: bv64) {
    hhdm >= 0x1_0000_0000_0000
  }

  /** The first address of a PML4 slot, as the clone computes it: without sign extension. */
  function RegionBase(slot: bv9): bv64 {
    (slot as bv64) << 39
  }

  lemma RegionParts(slot: bv9)
    ensures var x := RightTwelve(RegionBase(slot));
      && Apart(RegionBase(slot), 0xfff) && Apart(x, 0x1ff) && Apart(RightNine(x), 0x1ff)
      && Apart(RightNine(RightNine(x)), 0x1ff) && RightNine(RightNine(RightNine(x))) == slot as bv64
  {
  }

  lemma SlotNumber(slot: bv9)
    ensures Number(slot as bv64) == slot as nat
  {
  }

  /** Slot i begins at i times 512 GiB. */
  lemma RegionNumber(slot: bv9)
    ensures Number(RegionBase(slot)) == 0x80_0000_0000 * (slot as nat)
  {
    RegionParts(slot);
    SlotNumber(slot);
    hide RegionBase, Apart, RightTwelve, RightNine, Number;
    var x := RightTwelve(RegionBase(slot));
    var y := RightNine(x);
    ClearTwelve(RegionBase(slot));
    ClearNine(x);
    ClearNine(y);
    ClearNine(RightNine(y));
    TwelveRight(RegionBase(slot));
    NineRight(x);
    NineRight(y);
    NineRight(RightNine(y));
  }

  /** The test for slots to share when cloning and to skip when freeing. */
  predicate IsShared(i: nat, hhdm: bv64)
    requires i < ENTRIES
  {
    RegionBase(i as bv9) >= hhdm
  }

  /** No slot, not even a kernel one, passes that test. */
  lemma NoSlotIsShared(i: nat, hhdm: bv64)
    requires i < ENTRIES && HigherHalf(hhdm)
    ensures !IsShared(i, hhdm)
  {
    RegionIsLow(i as bv9);
  }

  lemma RegionIsLow(slot: bv9)
    ensures RegionBase(slot) < 0x1_0000_0000_0000
  {
  }

  /** Fill frame f from what entry e points to, or with zeros for a table, and link it in slot i of c. */
  ghost function Filled(m: Mem, e: bv64, c: Pfn, i: nat, k: nat, f: Pfn): Mem
    requires i < ENTRIES
  {
    Write(m[f := if k == 1 then m[Frame(e)] else ZeroPage()], c, i, Entry(f, e & LOW_FLAGS))
  }

  /** What filling does: f holds the source page, or zeros; slot i of c points to f, with the low 12 flag bits of e
      and no others; all other slots and frames are as they were. */
  ghost predicate IsFilled(m: Mem, n: Mem, e: bv64, c: Pfn, i: nat, k: nat, f: Pfn)
    requires i < ENTRIES
  {
    && (f != c ==> n[f] == if k == 1 then m[Frame(e)] else ZeroPage())
    && (Present(e) ==> Present(n[c][i])) && Frame(n[c][i]) == f && Flags(n[c][i]) == e & LOW_FLAGS
    && (f != c ==> forall j: nat :: j < ENTRIES && j != i ==> n[c][j] == m[c][j])
    && forall q: Pfn :: q != f && q != c ==> n[q] == m[q]
  }

  lemma FilledMeans(m: Mem, e: bv64, c: Pfn, i: nat, k: nat, f: Pfn)
    requires i < ENTRIES
    ensures IsFilled(m, Filled(m, e, c, i, k, f), e, c, i, k, f)
  {
    LowFlags(e);
    hide Frame, Entry, Flags, Present;
    EntryFrame(f, e & LOW_FLAGS);
    EntryFlags(f, e & LOW_FLAGS);
  }

  method Fill(pm: PhysicalMemory, e: bv64, c: Pfn, i: nat, k: nat, f: Pfn)
    requires i < ENTRIES
    modifies pm`mem
    ensures IsFilled(old(pm.mem), pm.mem, e, c, i, k, f)
    ensures pm.mem == Filled(old(pm.mem), e, c, i, k, f)
  {
    FilledMeans(pm.mem, e, c, i, k, f);
    hide Frame, Entry, IsFilled;
    if k == 1 {
      pm.mem := pm.mem[f := pm.mem[Frame(e)]];
    } else {
      pm.mem := pm.mem[f := ZeroPage()];
    }
    pm.mem := Write(pm.mem, c, i, Entry(f, e & LOW_FLAGS));
  }

  // Filling the page just allocated, which allocation has zeroed, hangs it.
  lemma FilledIsHang(m: Mem, s: Phys, t: Pfn, c: Pfn, i: nat, k: nat, f: Pfn)
    requires k >= 1 && i < ENTRIES && f != Frame(m[t][i]) && s.mem[Frame(m[t][i])] == m[Frame(m[t][i])]
    ensures Phys(Filled(s.mem[f := ZeroPage()], m[t][i], c, i, k, f), s.free - {f}, s.top) == Hang(m, s, t, c, i, k, f)
  {
    hide Frame, Entry;
    var page := if k == 1 then m[Frame(m[t][i])] else ZeroPage();
    assert s.mem[f := ZeroPage()][f := page] == s.mem[f := page];
  }

  /** Allocate the copy of what slot i of t points to, fill it, and link it in slot i of c; 0 if out of memory. */
  method HangCopy(pm: PhysicalMemory, ghost m: Mem, t: Pfn, c: Pfn, i: nat, k: nat) returns (f: Pfn)
    requires pm.Valid() && k >= 1 && i < ENTRIES
    requires pm.mem[t] == m[t] && Present(m[t][i]) && Frame(m[t][i]) !in pm.Free()
      && pm.mem[Frame(m[t][i])] == m[Frame(m[t][i])]
    modifies pm`usedPages, pm`freePages, pm`mem, pm.bitmap
    ensures pm.Valid()
    ensures f == 0 ==> old(pm.Free()) == {} && pm.View() == old(pm.View())
    ensures f != 0 ==> f in old(pm.Free()) && pm.View() == Hang(m, old(pm.View()), t, c, i, k, f)
  {
    hide Present, Frame, Entry, Filled, IsFilled, Hang, ClearIn, Bit;
    ghost var s := pm.View();
    var e := pm.mem[t][i];
    f := pm.AllocatePage();
    if f == 0 {
      return;
    }
    FilledIsHang(m, s, t, c, i, k, f);
    Fill(pm, e, c, i, k, f);
  }

  /** Copy the level-k table t to the zeroed table c, with everything below; the four nested loops, one level a call. */
  method CopyTable(pm: PhysicalMemory, hhdm: bv64, ghost m: Mem, t: Pfn, c: Pfn, k: nat) returns (ok: bool)
    requires pm.Valid() && 1 <= k <= 4 && HigherHalf(hhdm)
    requires Source(m, pm.View(), t, k) && c !in Foot(m, t, k, true)
    requires pm.mem[c] == ZeroPage() && c !in pm.Free() && 0 < c <= pm.highestPage
    modifies pm`usedPages, pm`freePages, pm`mem, pm.bitmap
    ensures pm.Valid()
    ensures Copied(m, old(pm.View()), pm.View(), t, c, k, ok)
    decreases k, 0
  {
    hide Present, Foot, Grown, Source, Copying, Copied, IsCopy, IsTree, IsShared, HigherHalf;
    ghost var s0 := pm.View();
    StartCopy(m, s0, t, c, k);
    for i := 0 to ENTRIES
      invariant pm.Valid()
      invariant Copying(m, s0, pm.View(), t, c, i, k)
    {
      CopyingSource(m, s0, pm.View(), t, c, i, k);
      if !Present(pm.mem[t][i]) {
        SkipSlot(m, s0, pm.View(), t, c, i, k);
        continue;
      }
      if k == 4 && IsShared(i, hhdm) {
        // The entry would be shared with the source.
        NoSlotIsShared(i, hhdm);
        assert false;
      }
      ok := CopySlot(pm, hhdm, m, s0, t, c, i, k);
      if !ok {
        return false;
      }
    }
    AllSlots(m, s0, pm.View(), t, c, k);
    return true;
  }

  // One turn of the loop, at a slot that is in use.
  method CopySlot(pm: PhysicalMemory, hhdm: bv64, ghost m: Mem, ghost s0: Phys, t: Pfn, c: Pfn, i: nat, k: nat)
    returns (ok: bool)
    requires pm.Valid() && 1 <= k <= 4 && i < ENTRIES && HigherHalf(hhdm)
    requires Copying(m, s0, pm.View(), t, c, i, k) && Present(m[t][i])
    requires Source(m, s0, t, k) && s0.mem[c] == ZeroPage() && c !in Foot(m, t, k, true)
    modifies pm`usedPages, pm`freePages, pm`mem, pm.bitmap
    ensures pm.Valid()
    ensures if ok then Copying(m, s0, pm.View(), t, c, i + 1, k) else Copied(m, s0, pm.View(), t, c, k, false)
    decreases k - 1, 1
  {
    hide Present, Frame, Foot, Grown, Source, Copying, Copied, Hung, Hang, IsCopy, IsTree, HigherHalf;
    ghost var s := pm.View();
    CopyingSource(m, s0, s, t, c, i, k);
    var e := pm.mem[t][i];
    var f := HangCopy(pm, m, t, c, i, k);
    if f == 0 {
      OutOfMemory(m, s0, s, t, c, i, k);
      return false;
    }
    ghost var s1 := pm.View();
    CopyingSane(m, s0, s, t, c, i, k);
    Ready(m, s, t, c, i, k, f);
    ok := true;
    if k > 1 {
      ok := CopyTable(pm, hhdm, m, Frame(e), f, k - 1);
    }
    TakeSlot(m, s0, s, s1, pm.View(), t, c, i, k, f, ok);
  }

  /** Free everything below the level-k table t and clear its entries. */
  method ReleaseTable(pm: PhysicalMemory, hhdm: bv64, t: Pfn, k: nat)
    requires pm.Valid() && 1 <= k <= 4 && HigherHalf(hhdm) && Owned(pm.View(), t, k, true)
    modifies pm`usedPages, pm`freePages, pm`mem, pm.bitmap
    ensures pm.Valid()
    ensures Emptied(old(pm.View()), pm.View(), t, k)
    decreases k, 0
  {
    hide Present, Frame, Foot, Owned, IsTree, Emptying, Emptied, Released, IsShared, HigherHalf;
    ghost var s0 := pm.View();
    StartEmptying(s0, t, k);
    for i := 0 to ENTRIES
      invariant pm.Valid()
      invariant Emptying(s0, pm.View(), t, k, i)
    {
      EmptyingSlot(s0, pm.View(), t, k, i);
      if !Present(pm.mem[t][i]) {
        SkipEmptySlot(s0, pm.View(), t, k, i);
        continue;
      }
      if k == 4 && IsShared(i, hhdm) {
        // The slot would be skipped.
        NoSlotIsShared(i, hhdm);
        assert false;
      }
      ReleaseEntry(pm, hhdm, s0, t, k, i);
    }
    DoneEmptying(s0, pm.View(), t, k);
  }

  // One turn of the loop, at a slot that is in use.
  method ReleaseEntry(pm: PhysicalMemory, hhdm: bv64, ghost s0: Phys, t: Pfn, k: nat, i: nat)
    requires pm.Valid() && 1 <= k <= 4 && i < ENTRIES && HigherHalf(hhdm) && Owned(s0, t, k, true)
    requires Emptying(s0, pm.View(), t, k, i) && Present(s0.mem[t][i]) && pm.mem[t][i] == s0.mem[t][i]
    modifies pm`usedPages, pm`freePages, pm`mem, pm.bitmap
    ensures pm.Valid()
    ensures Emptying(s0, pm.View(), t, k, i + 1)
    decreases k - 1, 1
  {
    hide Present, Frame, Foot, Owned, IsTree, Emptying, Emptied, Released, HigherHalf;
    ghost var s := pm.View();
    var e := pm.mem[t][i];
    SubtreeIntact(s0, s, t, k, i);
    if k > 1 {
      ReleaseTable(pm, hhdm, Frame(e), k - 1);
    } else {
      EmptyLeaf(s, Frame(e));
    }
    ReleaseSlot(s0, s, pm.View(), t, k, i);
    pm.FreePage(Frame(e) * PAGE_SIZE);
    pm.mem := Write(pm.mem, t, i, 0);
  }

  lemma NoFlags(f: Pfn)
    ensures Entry(f, 0) == Addr(f) && Flags(0) == 0
  {
    hide Addr;
  }

  lemma AddressAndBack(f: Pfn)
    ensures Frame(Addr(f)) == f
  {
    hide Frame, Addr, Flags, Entry;
    NoFlags(f);
    EntryFrame(f, 0);
  }

  /** The PML4 that a pagemap_t points to: the first word of its page, as a physical address. */
  function TopLevel(m: Mem, page: Pfn): Pfn {
    Frame(m[page][0])
  }

  /** A pagemap_t in an otherwise clear page: its first word points to the PML4. */
  ghost predicate PointsToTop(page: Page, pml4: Pfn) {
    page[0] == Addr(pml4) && forall j: nat :: 1 <= j < ENTRIES ==> page[j] == 0
  }

  /** What a successful clone leaves behind. */
  ghost predicate Cloned(s0: Phys, s1: Phys, root: Pfn, child: Pfn) {
    var c := TopLevel(s1.mem, child);
    && PointsToTop(s1.mem[child], c)
    && IsCopy(s0.mem, root, s1.mem, c, 4)
    && Owned(s1, c, 4, true)
    && child !in Foot(s1.mem, c, 4, true)
    && s1.free <= s0.free && s1.top == s0.top
    && s0.free - s1.free == Foot(s1.mem, c, 4, true) + {child}
    && |s0.free| == |s1.free| + 2 + Need(s0.mem, root, 4)
    && forall q: Pfn :: q !in s0.free ==> s1.mem[q] == s0.mem[q]
  }

  /** The tree of t, head included, was freed, its tables were cleared, and nothing else changed. */
  ghost predicate Discarded(s0: Phys, s1: Phys, t: Pfn) {
    && s1.free == s0.free + Foot(s0.mem, t, 4, true) && s1.top == s0.top
    && Wiped(s0.mem, s1.mem, t, 4)
    && forall q: Pfn :: q !in Foot(s0.mem, t, 4, true) ==> s1.mem[q] == s0.mem[q]
  }

  lemma DiscardHead(s0: Phys, s1: Phys, t: Pfn)
    requires Owned(s0, t, 4, true) && Emptied(s0, s1, t, 4)
    ensures t !in s1.free && Discarded(s0, Released(s1, t * PAGE_SIZE), t)
  {
    hide Foot, IsTree;
    HeadInFoot(s0.mem, t, 4);
    TablesInFoot(s0.mem, t, 4);
  }

  /** Free a clone's pages, except the one that holds its pagemap_t. */
  method FreePagemapClone(pm: PhysicalMemory, hhdm: bv64, clone: Pfn)
    requires pm.Valid() && HigherHalf(hhdm)
    requires Owned(pm.View(), TopLevel(pm.mem, clone), 4, true)
    modifies pm`usedPages, pm`freePages, pm`mem, pm.bitmap
    ensures pm.Valid()
    ensures Discarded(old(pm.View()), pm.View(), TopLevel(old(pm.mem), clone))
  {
    hide TopLevel, Owned, Emptied, Discarded, Released, HigherHalf;
    var pml4 := TopLevel(pm.mem, clone);
    ReleaseTable(pm, hhdm, pml4, 4);
    DiscardHead(old(pm.View()), pm.View(), pml4);
    pm.FreePage(pml4 * PAGE_SIZE);
  }

  /** Two fresh pages: child, whose first word points to pml4 through the direct map, and the empty pml4. */
  ghost predicate Prepared(s0: Phys, s1: Phys, child: Pfn, pml4: Pfn) {
    && child in s0.free && pml4 in s0.free && child != pml4 && 0 < child <= s0.top && 0 < pml4 <= s0.top
    && s1.free == s0.free - {child, pml4} && s1.top == s0.top
    && s1.mem[pml4] == ZeroPage()
    && PointsToTop(s1.mem[child], pml4)
    && forall q: Pfn :: q != child && q != pml4 ==> s1.mem[q] == s0.mem[q]
  }

  // A zeroed page, taken from s.
  ghost function TakeZeroed(s: Phys): (Phys, Pfn) {
    var (s1, f) := Allocated(s);
    if f == 0 then (s1, 0) else (Phys(s1.mem[f := ZeroPage()], s1.free, s1.top), f)
  }

  // allocate_page and memset.
  method TakeCleared(pm: PhysicalMemory) returns (f: Pfn)
    requires pm.Valid()
    modifies pm`usedPages, pm`freePages, pm`mem, pm.bitmap
    ensures pm.Valid() && (pm.View(), f) == TakeZeroed(old(pm.View()))
  {
    hide Allocated;
    f := pm.AllocatePage();
    if f != 0 {
      pm.mem := pm.mem[f := ZeroPage()];
    }
  }

  // Allocate a pagemap_t and an empty PML4 for it, or neither.
  method NewPagemap(pm: PhysicalMemory) returns (child: Pfn, pml4: Pfn)
    requires pm.Valid()
    modifies pm`usedPages, pm`freePages, pm`mem, pm.bitmap
    ensures pm.Valid()
    ensures if child == 0 then |old(pm.Free())| < 2 && Restored(old(pm.View()), pm.View())
            else Prepared(old(pm.View()), pm.View(), child, pml4)
  {
    ghost var s0 := pm.View();
    assert Sane(s0);
    hide Addr, ClearIn, Bit, Balanced, Prepared, Restored, Released, TakeZeroed, Sane;
    FirstOfTwo(s0);
    SecondOfTwo(s0);
    pml4 := 0;
    child := TakeCleared(pm);
    if child == 0 {
      return;
    }
    pml4 := TakeCleared(pm);
    if pml4 == 0 {
      pm.FreePage(child * PAGE_SIZE);
      return 0, 0;
    }
    pm.mem := Write(pm.mem, child, 0, Addr(pml4));
  }

  lemma FirstOfTwo(s: Phys)
    requires Sane(s)
    ensures var (s1, a) := TakeZeroed(s);
      && (a == 0 ==> s1 == s && s.free == {})
      && (a != 0 && TakeZeroed(s1).1 == 0 ==>
        && |s.free| == 1 && TakeZeroed(s1).0 == s1
        && Restored(s, Released(s1, a * PAGE_SIZE)))
  {
    var (s1, a) := TakeZeroed(s);
    if a != 0 && TakeZeroed(s1).1 == 0 {
      assert s.free == {a};
    }
  }

  lemma SecondOfTwo(s: Phys)
    requires Sane(s)
    ensures var (s1, a) := TakeZeroed(s); var (s2, b) := TakeZeroed(s1);
      a != 0 && b != 0 ==> Prepared(s, Phys(Write(s2.mem, a, 0, Addr(b)), s2.free, s2.top), a, b)
  {
    hide Addr;
    var (s1, a) := TakeZeroed(s);
    var (s2, b) := TakeZeroed(s1);
    if a != 0 && b != 0 {
      assert s2.free == s.free - {a, b};
    }
  }

  lemma TwoTaken(f0: set<Pfn>, f1: set<Pfn>, f2: set<Pfn>, a: Pfn, b: Pfn)
    requires a in f0 && b in f0 && a != b && f1 == f0 - {a, b} && f2 <= f1
    ensures |f0| == |f1| + 2
    ensures f0 - f2 == ({b} + (f1 - f2)) + {a}
    ensures (({b} + (f1 - f2)) + f2) + {a} == f0
  {
    assert f0 == f1 + {a, b};
  }

  lemma CloneSucceeds(s0: Phys, s1: Phys, s2: Phys, root: Pfn, child: Pfn, pml4: Pfn)
    requires Prepared(s0, s1, child, pml4) && Copied(s0.mem, s1, s2, root, pml4, 4, true)
    ensures Cloned(s0, s2, root, child)
    ensures |s0.free| >= 2 + Need(s0.mem, root, 4)
  {
    hide Foot, IsTree, IsCopy, Addr, Need, TopLevel, Owned, Copied, Prepared;
    PointerKept(s0, s1, s2, root, child, pml4, true);
    PreparedSets(s0, s1, child, pml4);
    TwoTaken(s0.free, s1.free, s2.free, child, pml4);
    OutsideKept(s0, s1, s2, Foot(s2.mem, pml4, 4, true), child, pml4);
  }

  lemma PreparedSets(s0: Phys, s1: Phys, child: Pfn, pml4: Pfn)
    requires Prepared(s0, s1, child, pml4)
    ensures child in s0.free && pml4 in s0.free && child != pml4
    ensures s1.free == s0.free - {child, pml4} && s1.free <= s0.free && s1.top == s0.top
  {
    hide Addr;
  }

  // Frames that were not free keep their contents, and the pagemap_t is none of the copy's.
  lemma OutsideKept(s0: Phys, s1: Phys, s2: Phys, foot: set<Pfn>, child: Pfn, pml4: Pfn)
    requires Prepared(s0, s1, child, pml4) && foot == {pml4} + (s1.free - s2.free)
    requires forall q: Pfn :: q !in foot ==> s2.mem[q] == s1.mem[q]
    ensures child !in foot && forall q: Pfn :: q !in s0.free ==> s2.mem[q] == s0.mem[q]
  {
    hide Addr;
  }

  // The copy does not touch the pagemap_t.
  lemma PointerKept(s0: Phys, s1: Phys, s2: Phys, root: Pfn, child: Pfn, pml4: Pfn, ok: bool)
    requires Prepared(s0, s1, child, pml4) && Copied(s0.mem, s1, s2, root, pml4, 4, ok)
    ensures TopLevel(s2.mem, child) == pml4 && PointsToTop(s2.mem[child], pml4) && Owned(s2, pml4, 4, true)
    ensures Foot(s2.mem, pml4, 4, true) == {pml4} + (s1.free - s2.free) && s2.free <= s1.free && s2.top == s1.top
    ensures forall q: Pfn :: q !in Foot(s2.mem, pml4, 4, true) ==> s2.mem[q] == s1.mem[q]
    ensures !ok ==> s2.free == {} && |s1.free| < Need(s0.mem, root, 4)
    ensures ok ==> IsCopy(s0.mem, root, s2.mem, pml4, 4) && |s1.free| == |s2.free| + Need(s0.mem, root, 4)
  {
    hide Foot, IsTree, IsCopy, Addr, Frame, Need;
    ZeroTreeWithLeaves(s1.mem, pml4, 4);
    AddressAndBack(pml4);
    assert s2.mem[child] == s1.mem[child];
  }

  lemma CloneNeedsMore(s0: Phys, s1: Phys, s2: Phys, root: Pfn, child: Pfn, pml4: Pfn)
    requires Prepared(s0, s1, child, pml4) && Copied(s0.mem, s1, s2, root, pml4, 4, false)
    ensures |s0.free| < 2 + Need(s0.mem, root, 4)
  {
    hide Grown, Addr, Need;
    TwoTaken(s0.free, s1.free, s1.free, child, pml4);
  }

  lemma AllBack(f0: set<Pfn>, f1: set<Pfn>, a: Pfn, b: Pfn)
    requires a in f0 && b in f0 && a != b && f1 == f0 - {a, b}
    ensures {} + ({b} + (f1 - {})) == f0 - {a}
    ensures f0 - {a} + {a} == f0
  {
  }

  lemma RollbackRestores(s0: Phys, s1: Phys, s2: Phys, s3: Phys, root: Pfn, child: Pfn, pml4: Pfn)
    requires Prepared(s0, s1, child, pml4) && Copied(s0.mem, s1, s2, root, pml4, 4, false)
    requires Discarded(s2, s3, pml4)
    ensures child !in s3.free && Restored(s0, Released(s3, child * PAGE_SIZE))
  {
    hide Foot, Addr, Need, TopLevel, Owned, Copied, Released;
    PointerKept(s0, s1, s2, root, child, pml4, false);
    AllBack(s0.free, s1.free, child, pml4);
    ReleasedFrame(s3, child);
    assert s3.free == s0.free - {child};
  }

  lemma ReleasedFrame(s: Phys, f: Pfn)
    requires 0 < f <= s.top
    ensures Released(s, f * PAGE_SIZE) == Phys(s.mem, s.free + {f}, s.top)
  {
  }

  lemma SourcePrepared(s0: Phys, s1: Phys, root: Pfn, child: Pfn, pml4: Pfn)
    requires Source(s0.mem, s0, root, 4) && Prepared(s0, s1, child, pml4)
    ensures Source(s0.mem, s1, root, 4) && pml4 !in Foot(s0.mem, root, 4, true)
  {
    hide Foot, Addr;
  }

  /** Deep-copy a pagemap; the result is the page of the new pagemap_t, or 0. */
  method ClonePagemap(pm: PhysicalMemory, hhdm: bv64, root: Pfn) returns (child: Pfn)
    requires pm.Valid() && HigherHalf(hhdm)
    requires Source(pm.mem, pm.View(), root, 4)
    modifies pm`usedPages, pm`freePages, pm`mem, pm.bitmap
    ensures pm.Valid()
    ensures child != 0 <==> |old(pm.Free())| >= 2 + Need(old(pm.mem), root, 4)
    ensures child != 0 ==> Cloned(old(pm.View()), pm.View(), root, child)
    ensures child == 0 ==> Restored(old(pm.View()), pm.View())
    ensures child == 0 ==> pm.usedPages == old(pm.usedPages) && pm.freePages == old(pm.freePages)
  {
    hide Source, Prepared, Copied, Cloned, Discarded, Owned, TopLevel, Need, Released, Balanced, Foot, HigherHalf;
    ghost var s0 := pm.View();
    BalanceUnique(pm.usedPages, pm.freePages, pm.totalRamPages);
    var pml4;
    child, pml4 := NewPagemap(pm);
    if child == 0 {
      return 0;
    }
    ghost var s1 := pm.View();
    SourcePrepared(s0, s1, root, child, pml4);
    PreparedFacts(s0, s1, child, pml4);
    var ok := CopyTable(pm, hhdm, s0.mem, root, pml4, 4);
    ghost var s2 := pm.View();
    PointerKept(s0, s1, s2, root, child, pml4, ok);
    if !ok {
      CloneNeedsMore(s0, s1, s2, root, child, pml4);
      FreePagemapClone(pm, hhdm, child);
      RollbackRestores(s0, s1, s2, pm.View(), root, child, pml4);
      pm.FreePage(child * PAGE_SIZE);
      return 0;
    }
    CloneSucceeds(s0, s1, s2, root, child, pml4);
  }

  lemma PreparedFacts(s0: Phys, s1: Phys, child: Pfn, pml4: Pfn)
    requires Prepared(s0, s1, child, pml4)
    ensures s1.mem[pml4] == ZeroPage() && pml4 !in s1.free && 0 < pml4 <= s1.top && child != 0
  {
  }

  /** Counters that balance are determined by the number of free pages. */
  lemma BalanceUnique(used: nat, free: nat, total: nat)
    requires Balanced(used, free, total)
    ensures forall u :: Balanced(u, free, total) ==> u == used
  {
  }
}
