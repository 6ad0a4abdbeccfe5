/** What the processor finds in the kernel's pagemap after boot: for each kind of address the frame and the
    permissions, as plain numbers. */
module KernelNumbers {
  import opened Machine
  import opened Words
  import opened Mmu
  import opened Pte
  import opened PageTree
  import opened PhysMem
  import opened VmmMap
  import opened VmmRun
  import opened VirtAddr
  import opened VmmNumbers
  import opened BootNumbers
  import opened KernelSpace

  // Flag bits of an entry: present; and not executable; and writable.
  const X: nat := 0x1
  const R: nat := 0x8000_0000_0000_0001
  const RW: nat := 0x8000_0000_0000_0003

  /** Present, executable and read-only; present and read-only; present and writable. */
  lemma KindBits(f: nat, w: nat)
    requires f < 0x100_0000_0000
    ensures w == 0x1000 * f + X ==> IsPresent(w) && !IsWritable(w) && !IsNoExecute(w) && !IsUser(w) && PointsTo(w) == f
    ensures w == 0x1000 * f + R ==> IsPresent(w) && !IsWritable(w) && IsNoExecute(w) && !IsUser(w) && PointsTo(w) == f
    ensures w == 0x1000 * f + RW ==> IsPresent(w) && IsWritable(w) && IsNoExecute(w) && !IsUser(w) && PointsTo(w) == f
  {
    SmallBits();
    hide IsPresent, IsWritable, IsUser, IsNoExecute, PointsTo;
    if w == 0x1000 * f + X {
      BitsOfSum(w, 0, f, 1);
    } else if w == 0x1000 * f + R {
      BitsOfSum(w, 0x800, f, 1);
    } else if w == 0x1000 * f + RW {
      BitsOfSum(w, 0x800, f, 3);
    }
  }

  lemma SmallBits()
    ensures IsPresent(1) && !IsWritable(1) && !IsUser(1) && IsPresent(3) && IsWritable(3) && !IsUser(3)
  {
  }

  lemma CanonicalPage(n: Vpn)
    ensures Canonical(n) / 0x1000 % 0x10_0000_0000 == n
  {
  }

  /** Page n's path is the one that its addresses take. */
  lemma KeyIs(n: Vpn, v: nat)
    requires v / 0x1000 % 0x10_0000_0000 == n
    ensures PathTo(v) == Key(n)
  {
    hide PathOf, Virt, Canonical, Number;
    VirtIsCanonical(n);
    CanonicalPage(n);
    SamePagePath(Virt(n), v);
  }

  lemma AddrNumber(f: Pfn)
    ensures Number(Addr(f)) == 0x1000 * f
  {
    var b := BitsOf(f);
    ToNatAndBack(b);
    AddressNumber40(b);
    hide Number, AddrBits;
  }

  lemma FrameSeen(f: Pfn, flags: bv64)
    requires PlainFlags(Number(flags)) && IsPresent(Number(flags))
    ensures Seen(LeafEntry(Addr(f), flags)) == Leaf(0x1000 * f + Number(flags))
  {
    hide LeafEntry, Addr, Number, Seen, PlainFlags, IsPresent;
    AddrNumber(f);
    SeenLeaf(Addr(f), flags);
  }

  lemma KindNumbers()
    ensures Number(PRESENT) == X && Number(PRESENT | NX) == R && Number(DATA_FLAGS) == RW
    ensures PlainFlags(X) && PlainFlags(R) && PlainFlags(RW)
  {
  }

  // What is found at an address of page n, which is mapped.
  lemma MappedFound(s: Phys, root: Pfn, a: PageMap, n: Vpn, v: nat)
    requires Is(s, root, a) && Key(n) in a && v / 0x1000 % 0x10_0000_0000 == n
    ensures LookUp(s.mem, root, v) == Seen(a[Key(n)])
  {
    hide LookUp, Seen, PathTo, Is, Virt, PathOf, Walk;
    KeyIs(n, v);
    LookUpIsWalk(s.mem, root, v);
    WalkIs(s, root, a, n, Virt(n));
  }

  lemma UnmappedFound(s: Phys, root: Pfn, a: PageMap, n: Vpn, v: nat)
    requires Is(s, root, a) && Key(n) !in a && v / 0x1000 % 0x10_0000_0000 == n
    ensures LookUp(s.mem, root, v) == Fault
  {
    hide LookUp, Seen, PathTo, Is, Virt, PathOf, Walk;
    KeyIs(n, v);
    LookUpIsWalk(s.mem, root, v);
    NotMapped(s, root, a, Virt(n));
    ZeroSeen();
  }

  lemma KindTranslates(m: Mem, root: Pfn, v: nat, f: nat, kind: nat)
    requires f < 0x100_0000_0000 && (kind == X || kind == R || kind == RW)
    requires LookUp(m, root, v) == Leaf(0x1000 * f + kind)
    ensures Translate(m, root, v) == 0x1000 * f + v % 0x1000
  {
    KindBits(f, 0x1000 * f + kind);
    hide LookUp, PointsTo, IsPresent, IsWritable, IsNoExecute, IsUser;
  }

  // What is found at a mapped page of data.
  lemma DataFound(s: Phys, root: Pfn, a: PageMap, n: Vpn, f: Pfn, v: nat)
    requires Is(s, root, a) && v / 0x1000 % 0x10_0000_0000 == n
    requires Key(n) in a && a[Key(n)] == LeafEntry(Addr(f), DATA_FLAGS)
    ensures LookUp(s.mem, root, v) == Leaf(0x1000 * f + RW) && Translate(s.mem, root, v) == 0x1000 * f + v % 0x1000
  {
    hide LookUp, Seen, Virt, PathOf, LeafEntry, Addr, Number, Is, PlainFlags, Translate;
    KindNumbers();
    MappedFound(s, root, a, n, v);
    FrameSeen(f, DATA_FLAGS);
    KindTranslates(s.mem, root, v, f, RW);
  }

  function KindOf(img: Image, p: nat): nat {
    if img.textStart <= p < img.textEnd then X else if img.rodataStart <= p < img.rodataEnd then R else RW
  }

  lemma KindIs(img: Image, p: nat)
    ensures Number(img.Flags(p)) == KindOf(img, p) && PlainFlags(KindOf(img, p)) && IsPresent(KindOf(img, p))
  {
    KindNumbers();
    hide Number, PlainFlags;
  }

  // What is found at a page of the image.
  lemma ImagePageFound(s: Phys, root: Pfn, img: Image, regions: seq<Region>, a: PageMap, n: Vpn, v: nat)
    requires Initialised(s, root, img, regions, a) && img.Ok() && img.Has(n) && v / 0x1000 % 0x10_0000_0000 == n
    ensures LookUp(s.mem, root, v) == Leaf(0x1000 * img.FrameOf(n) + KindOf(img, Canonical(n)))
  {
    hide LookUp, Seen, Virt, PathOf, LeafEntry, Addr, Number, Is, Planned, RegionsMapped, AsPlanned, Canonical;
    hide PlainFlags, KindOf, Image.FrameOf, Image.Ok, Image.Flags, Image.Has, Key;
    ImageHas(s, root, img, regions, a, n);
    ImageNumbers(img, n);
    ImagePlanned(img, n, a[Key(n)]);
    MappedFound(s, root, a, n, v);
    KindIs(img, Canonical(n));
    FrameSeen(img.FrameOf(n), img.Flags(Canonical(n)));
  }

  /** The kernel image translates linearly. Its text may be executed and not written, its read-only data neither, and
      the rest of it may be written and not executed. */
  lemma ImageFound(s: Phys, root: Pfn, img: Image, regions: seq<Region>, a: PageMap, v: nat)
    requires Initialised(s, root, img, regions, a) && img.Ok() && img.virtBase <= v < img.bssEnd
    ensures var p := v - v % 0x1000;
      var text, rodata := img.textStart <= p < img.textEnd, img.rodataStart <= p < img.rodataEnd;
      LookUp(s.mem, root, v) ==
        Leaf(p - img.virtBase + img.physBase + if text then X else if rodata then R else RW)
    ensures Translate(s.mem, root, v) == v - img.virtBase + img.physBase
  {
    var n := PageAt(v);
    hide LookUp, Translate, Initialised, PageAt, Canonical;
    hide Image.FrameOf, Image.Ok, Image.Has;
    PageInImage(img, v);
    ImageNumbers(img, n);
    ImagePageFound(s, root, img, regions, a, n, v);
    KindTranslates(s.mem, root, v, img.FrameOf(n), KindOf(img, Canonical(n)));
  }

  lemma PageInImage(img: Image, v: nat)
    requires img.Ok() && img.virtBase <= v < img.bssEnd
    ensures var n := PageAt(v);
      && v / 0x1000 % 0x10_0000_0000 == n && Canonical(n) == v - v % 0x1000 && img.Has(n)
  {
    KernelPage(v - v % 0x1000);
    assert PageAt(v) == PageAt(v - v % 0x1000);
  }

  /** The page of address x lies wholly within region r. */
  predicate PageWithin(r: Region, x: nat) {
    r.base <= x / 0x1000 * 0x1000 && x / 0x1000 * 0x1000 + 0x1000 <= r.base + r.length
  }

  lemma RegionPage(regions: seq<Region>, i: nat, x: nat)
    requires RegionsFit(regions) && i < |regions|
    requires PageWithin(regions[i], x)
    ensures regions[i].First() <= x / 0x1000 < regions[i].Last() && x < PHYS_END
  {
    RegionExact(regions[i]);
    assert PageExact(regions[i], x / 0x1000);
  }

  /** Every address x of memory whose page is wholly within a region of the memory map is found in the direct map; it
      may be written and not executed. */
  lemma DirectFound(s: Phys, root: Pfn, img: Image, regions: seq<Region>, a: PageMap, i: nat, x: nat)
    requires Initialised(s, root, img, regions, a) && RegionsFit(regions) && i < |regions| && PageWithin(regions[i], x)
    ensures LookUp(s.mem, root, 0xffff_8000_0000_0000 + x) == Leaf(x / 0x1000 * 0x1000 + RW)
    ensures Translate(s.mem, root, 0xffff_8000_0000_0000 + x) == x
  {
    hide LookUp, Translate, Initialised, RegionsFit, PageWithin;
    hide Region.First, Region.Last;
    RegionPage(regions, i, x);
    DirectAddress(x);
    DirectPageFound(s, root, img, regions, a, i, x / 0x1000, 0xffff_8000_0000_0000 + x);
  }

  /** And below one mebibyte it is found at x as well. */
  lemma IdentityFound(s: Phys, root: Pfn, img: Image, regions: seq<Region>, a: PageMap, i: nat, x: nat)
    requires Initialised(s, root, img, regions, a) && RegionsFit(regions) && i < |regions| && PageWithin(regions[i], x)
    requires x < 0x10_0000
    ensures LookUp(s.mem, root, x) == Leaf(x / 0x1000 * 0x1000 + RW) && Translate(s.mem, root, x) == x
  {
    hide LookUp, Translate, Initialised, RegionsFit, PageWithin;
    hide Region.First, Region.Last;
    RegionPage(regions, i, x);
    DirectAddress(x);
    LowPageFound(s, root, img, regions, a, i, x / 0x1000, x);
  }

  lemma DirectPageFound(s: Phys, root: Pfn, img: Image, regions: seq<Region>, a: PageMap, i: nat, f: Ppn, v: nat)
    requires Initialised(s, root, img, regions, a) && i < |regions|
    requires regions[i].First() <= f < regions[i].Last() && v / 0x1000 % 0x10_0000_0000 == HHDM_PAGE + f
    ensures LookUp(s.mem, root, v) == Leaf(0x1000 * f + RW) && Translate(s.mem, root, v) == 0x1000 * f + v % 0x1000
  {
    hide LookUp, Translate, Is, LeafEntry, Addr, Planned, AsPlanned, ImageMapped, RegionsMapped, Key;
    DirectHas(s, root, img, regions, a, i, f);
    DirectPlanned(img, f, a[Key(HHDM_PAGE + f)]);
    DataFound(s, root, a, HHDM_PAGE + f, f, v);
  }

  lemma LowPageFound(s: Phys, root: Pfn, img: Image, regions: seq<Region>, a: PageMap, i: nat, n: Vpn, v: nat)
    requires Initialised(s, root, img, regions, a) && i < |regions| && n < 0x100
    requires regions[i].First() <= n < regions[i].Last() && v / 0x1000 % 0x10_0000_0000 == n
    ensures LookUp(s.mem, root, v) == Leaf(0x1000 * n + RW) && Translate(s.mem, root, v) == 0x1000 * n + v % 0x1000
  {
    hide LookUp, Translate, Is, LeafEntry, Addr, AsPlanned, ImageMapped, RegionsMapped, Key;
    LowHas(s, root, img, regions, a, i, n);
    DataFound(s, root, a, n, n, v);
  }

  lemma DirectAddress(x: nat)
    requires x < PHYS_END
    ensures (0xffff_8000_0000_0000 + x) / 0x1000 % 0x10_0000_0000 == HHDM_PAGE + x / 0x1000
    ensures (0xffff_8000_0000_0000 + x) % 0x1000 == x % 0x1000 && x / 0x1000 % 0x10_0000_0000 == x / 0x1000
  {
  }

  lemma LowHas(s: Phys, root: Pfn, img: Image, regions: seq<Region>, a: PageMap, i: nat, n: Vpn)
    requires Initialised(s, root, img, regions, a) && i < |regions|
    requires regions[i].First() <= n < regions[i].Last() && n < 0x100
    ensures Key(n) in a && a[Key(n)] == LeafEntry(Addr(n), DATA_FLAGS)
  {
    hide Is, ImageMapped, Key, DirectMapped, LeafEntry, Addr, HeapLeaf, Canonical;
    assert RegionMapped(a, regions[i]);
    assert Planned(img, n, a[Key(n)]);
  }

  /** Every address of the heap is found in a frame of its page's own, to be written and not executed. */
  lemma HeapFound(s: Phys, root: Pfn, a: PageMap, fs: seq<Pfn>, v: nat)
    requires Is(s, root, a) && HeapBacked(s, root, a, fs) && |fs| == 256
    requires 0xffff_8100_0000_0000 <= v < 0xffff_8100_0010_0000
    ensures var i := (v - 0xffff_8100_0000_0000) / 0x1000;
      && LookUp(s.mem, root, v) == Leaf(0x1000 * fs[i] + RW)
      && Translate(s.mem, root, v) == 0x1000 * fs[i] + v % 0x1000
      && fs[i] !in s.free && forall j :: 0 <= j < 256 && j != i ==> fs[j] != fs[i]
  {
    var i := (v - 0xffff_8100_0000_0000) / 0x1000;
    hide LookUp, Translate, Is, LeafEntry, Addr, Key, HeapBacked, Tables;
    HeapPageOf(v, i);
    BackedAt(s, root, a, fs, i);
    DataFound(s, root, a, HEAP_PAGE + i, fs[i], v);
  }

  lemma HeapPageOf(v: nat, i: nat)
    requires 0xffff_8100_0000_0000 <= v < 0xffff_8100_0010_0000 && i == (v - 0xffff_8100_0000_0000) / 0x1000
    ensures i < 256 && v / 0x1000 % 0x10_0000_0000 == HEAP_PAGE + i
  {
  }

  /** Nothing else is mapped: a page that is found lies in the direct map, in the heap, below one mebibyte or in the
      image, and unless it is read-only code it cannot be executed. */
  lemma OnlyPlannedFound(s: Phys, root: Pfn, img: Image, regions: seq<Region>, a: PageMap, v: nat)
    requires Initialised(s, root, img, regions, a) && img.Ok() && LookUp(s.mem, root, v).Leaf?
    requires v < 0x8000_0000_0000 || 0xffff_8000_0000_0000 <= v < U64
    ensures var w, p := LookUp(s.mem, root, v).word, v - v % 0x1000;
      || (0xffff_8000_0000_0000 <= v < 0xffff_8100_0000_0000 && w == p - 0xffff_8000_0000_0000 + RW)
      || (0xffff_8100_0000_0000 <= v < 0xffff_8100_0010_0000 && w == 0x1000 * PointsTo(w) + RW)
      || (v < 0x10_0000 && w == p + RW)
      || (img.virtBase <= p < img.bssEnd
          && w == p - img.virtBase + img.physBase + if img.textStart <= p < img.textEnd then X
                                                    else if img.rodataStart <= p < img.rodataEnd then R
                                                    else RW)
  {
    var n := PageAt(v);
    CanonicalAddress(v);
    hide LookUp, Seen, Virt, PathOf, LeafEntry, Addr, Number, Is, Planned, Canonical, PageAt, RegionMapped, PlainFlags;
    hide Image.FrameOf, Image.Ok, Image.Flags, Image.Has;
    if Key(n) in a {
      MappedFound(s, root, a, n, v);
      PlannedFound(img, n, v, a[Key(n)]);
    } else {
      UnmappedFound(s, root, a, n, v);
    }
  }

  lemma CanonicalAddress(v: nat)
    requires v < 0x8000_0000_0000 || 0xffff_8000_0000_0000 <= v < U64
    ensures var n := PageAt(v); v / 0x1000 % 0x10_0000_0000 == n && Canonical(n) == v - v % 0x1000
  {
  }

  lemma PlannedFound(img: Image, n: Vpn, v: nat, e: bv64)
    requires Planned(img, n, e) && Canonical(n) == v - v % 0x1000 && img.Ok()
    ensures Seen(e).Leaf?
    ensures var w, p := Seen(e).word, v - v % 0x1000;
      || (0xffff_8000_0000_0000 <= v < 0xffff_8100_0000_0000 && w == p - 0xffff_8000_0000_0000 + RW)
      || (0xffff_8100_0000_0000 <= v < 0xffff_8100_0010_0000 && w == 0x1000 * PointsTo(w) + RW)
      || (v < 0x10_0000 && w == p + RW)
      || (img.virtBase <= p < img.bssEnd
          && w == p - img.virtBase + img.physBase + if img.textStart <= p < img.textEnd then X
                                                    else if img.rodataStart <= p < img.rodataEnd then R
                                                    else RW)
  {
    hide Seen, LeafEntry, Addr, Number, PlainFlags, PointsTo;
    KindNumbers();
    if IsHhdm(n) {
      FrameSeen(n - HHDM_PAGE, DATA_FLAGS);
    } else if IsHeap(n) {
      var f: Pfn :| e == LeafEntry(Addr(f), DATA_FLAGS);
      FrameSeen(f, DATA_FLAGS);
      KindBits(f, 0x1000 * f + RW);
    } else if IsLow(n) {
      FrameSeen(n, DATA_FLAGS);
    } else {
      ImageNumbers(img, n);
      FrameSeen(img.FrameOf(n), img.Flags(Canonical(n)));
      BelowEnd(img, Canonical(n));
    }
  }

  lemma BelowEnd(img: Image, p: nat)
    requires img.Ok() && p % 0x1000 == 0 && p < img.End()
    ensures p < img.bssEnd
  {
  }
}
