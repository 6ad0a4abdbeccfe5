/** Which frames boot leaves free, on plain numbers: the memory map, the kernel image and the bitmap as addresses. */
module BootNumbers {
  import opened Machine
  import opened Pte
  import opened PhysMem
  import opened PageRun

  /** Region r is memory that the kernel may use, and all bytes of frame f lie in it. */
  predicate Covers(r: Region, f: nat) {
    (r.kind == Usable || r.kind == BootloaderReclaimable) && r.base <= 4096 * f && 4096 * f + 4096 <= r.base + r.length
  }

  /** Frame f is wholly within some usable region. */
  ghost predicate Covered(regions: seq<Region>, f: nat) {
    exists i :: 0 <= i < |regions| && Covers(regions[i], f)
  }

  /** No region reaches 2^64, and none begins in the last page below it. */
  predicate PlainMap(regions: seq<Region>) {
    forall i :: 0 <= i < |regions| ==>
      regions[i].base + regions[i].length < U64 && regions[i].base + 4096 <= U64
  }

  predicate PageExact(r: Region, f: nat) {
    r.First() <= f < r.Last() <==> r.base <= 4096 * f && 4096 * f + 4096 <= r.base + r.length
  }

  ghost predicate PagesExact(r: Region) {
    forall f: nat :: PageExact(r, f)
  }

  /** The pages that the kernel takes a region to consist of are those it wholly covers, exactly if the region does not
      begin in the last page below 2^64, where rounding up wraps around. */
  lemma RegionExact(r: Region)
    requires r.base + r.length < U64
    ensures PagesExact(r) <==> r.base + 4096 <= U64
  {
    if r.base + 4096 <= U64 {
      assert AlignUp(r.base) == (r.base + 4095) / 4096 * 4096;
      forall f: nat ensures PageExact(r, f) {
        RoundUpIs(r.base, f);
        RoundDownIs(r.base + r.length, f);
      }
    } else {
      assert AlignUp(r.base) == 0;
      assert !PageExact(r, 0);
    }
  }

  lemma RoundUpIs(x: nat, f: nat)
    ensures (x + 4095) / 4096 <= f <==> x <= 4096 * f
  {
  }

  lemma RoundDownIs(x: nat, f: nat)
    ensures f < x / 4096 <==> 4096 * f + 4096 <= x
  {
  }

  lemma RamExact(regions: seq<Region>, f: Pfn)
    requires PlainMap(regions)
    ensures InRam(regions, f) <==> Covered(regions, f)
  {
    forall i | 0 <= i < |regions|
      ensures regions[i].IsRam() && regions[i].First() <= f < regions[i].Last() <==> Covers(regions[i], f)
    {
      RegionExact(regions[i]);
      OnePage(regions[i], f);
    }
    hide Covers;
    hide Region.First, Region.Last, Region.IsRam;
  }

  lemma OnePage(r: Region, f: nat)
    requires PagesExact(r)
    ensures r.IsRam() && r.First() <= f < r.Last() <==> Covers(r, f)
  {
    assert PageExact(r, f);
    hide Region.First, Region.Last;
  }

  /** The highest frame is that of the highest region end, and at most the last one of 2^23 that the bitmap can hold. */
  lemma TopExact(regions: seq<Region>)
    requires PlainMap(regions)
    ensures var top := HighestPage(regions);
      && top <= 0x7f_ffff
      && (top < 0x7f_ffff ==>
        forall i :: 0 <= i < |regions| ==> regions[i].base + regions[i].length < 4096 * top + 4096)
      && (top > 0 ==> exists i :: 0 <= i < |regions| && 4096 * top <= regions[i].base + regions[i].length)
  {
  }

  /** Where the linear map of the kernel image puts address b. */
  function ImageFrame(boot: Boot, b: nat): int {
    (b - boot.virtualBase + boot.physicalBase) / 4096
  }

  /** Frame f holds a byte of the bitmap, one mebibyte from its address on. */
  ghost predicate HoldsBitmap(boot: Boot, f: nat) {
    exists b: nat :: boot.bitmap <= b < boot.bitmap + 0x10_0000 && ImageFrame(boot, b) == f
  }

  /** Frame f holds a byte that lies as far from the physical base as some byte of the kernel from its text's start. */
  ghost predicate HoldsKernel(boot: Boot, f: nat) {
    exists b: nat :: boot.textStart <= b < boot.bssEnd && FromText(boot, b) == f
  }

  function FromText(boot: Boot, b: nat): int {
    (b - boot.textStart + boot.physicalBase) / 4096
  }

  predicate PlainBitmap(boot: Boot) {
    boot.virtualBase <= boot.bitmap && boot.bitmap - boot.virtualBase + boot.physicalBase + 0x10_0fff < U64
  }

  lemma BitmapRange(boot: Boot)
    requires PlainBitmap(boot)
    ensures var a := boot.bitmap - boot.virtualBase + boot.physicalBase;
      boot.BitmapFirst() == a / 4096 && boot.BitmapLast() == (a + 0x10_0fff) / 4096
  {
  }

  lemma Between(a: nat, n: nat, f: nat) returns (x: nat)
    requires a / 4096 <= f < (a + n + 4095) / 4096 && n > 0
    ensures a <= x < a + n && x / 4096 == f
  {
    x := if 4096 * f < a then a else 4096 * f;
  }

  lemma Within(a: nat, n: nat, x: nat)
    requires a <= x < a + n
    ensures a / 4096 <= x / 4096 < (a + n + 4095) / 4096
  {
  }

  /** The frames reserved for the bitmap are those that hold a byte of it. */
  lemma BitmapExact(boot: Boot, f: nat)
    requires PlainBitmap(boot)
    ensures boot.BitmapFirst() <= f < boot.BitmapLast() <==> HoldsBitmap(boot, f)
  {
    BitmapRange(boot);
    hide Boot.BitmapFirst, Boot.BitmapLast;
    var a := boot.bitmap - boot.virtualBase + boot.physicalBase;
    if boot.BitmapFirst() <= f < boot.BitmapLast() {
      var x := Between(a, 0x10_0000, f);
      var b: nat := x - boot.physicalBase + boot.virtualBase;
      assert ImageFrame(boot, b) == f;
    }
    if HoldsBitmap(boot, f) {
      var b: nat :| boot.bitmap <= b < boot.bitmap + 0x10_0000 && ImageFrame(boot, b) == f;
      Within(a, 0x10_0000, b - boot.virtualBase + boot.physicalBase);
    }
  }

  lemma KernelRange(boot: Boot)
    requires PlainImage(boot)
    ensures boot.KernelFirst() == boot.physicalBase / 4096
    ensures boot.KernelLast() == (boot.physicalBase + (boot.bssEnd - boot.textStart) + 4095) / 4096
  {
    KernelLastIs(boot);
    RoundSum(boot.physicalBase, boot.bssEnd - boot.textStart);
    hide Boot.KernelLast;
  }

  lemma RoundSum(a: nat, n: nat)
    requires a % 4096 == 0 && n + 4095 < U64
    ensures (a + AlignUp(n)) / 4096 == (a + n + 4095) / 4096
  {
    assert AlignUp(n) == (n + 4095) / 4096 * 4096;
    assert (a + n + 4095) / 4096 == a / 4096 + (n + 4095) / 4096;
  }

  /** The frames reserved for the kernel are those that would hold it if its text section began at the physical base. */
  lemma KernelExact(boot: Boot, f: nat)
    requires PlainImage(boot)
    ensures boot.KernelFirst() <= f < boot.KernelLast() <==> HoldsKernel(boot, f)
  {
    KernelRange(boot);
    var a, n := boot.physicalBase, boot.bssEnd - boot.textStart;
    AlignedEmpty(a, n);
    hide Boot.KernelFirst, Boot.KernelLast;
    if boot.KernelFirst() <= f < boot.KernelLast() {
      var x := Between(a, n, f);
      var b: nat := x - a + boot.textStart;
      assert FromText(boot, b) == f;
    }
    if HoldsKernel(boot, f) {
      var b: nat :| boot.textStart <= b < boot.bssEnd && FromText(boot, b) == f;
      Within(a, n, b - boot.textStart + a);
    }
  }

  lemma AlignedEmpty(a: nat, n: nat)
    requires a % 4096 == 0
    ensures a / 4096 < (a + n + 4095) / 4096 <==> n > 0
  {
  }

  /** A frame is free after boot exactly if it is managed, wholly within a usable region, not below one mebibyte, and
      holds neither a byte of the bitmap nor one of the kernel range. */
  lemma BootFreeExact(regions: seq<Region>, boot: Boot, top: nat, f: Pfn)
    requires PlainMap(regions) && PlainImage(boot) && PlainBitmap(boot) && top < BITMAP_PAGES
    ensures f in BootFree(regions, boot, top) <==>
      && f <= top && Covered(regions, f) && 0x10_0000 <= 4096 * f
      && !HoldsBitmap(boot, f) && !HoldsKernel(boot, f)
  {
    RamExact(regions, f);
    BitmapExact(boot, f);
    KernelExact(boot, f);
    hide InRam, Covered, HoldsBitmap, HoldsKernel, PlainMap, PlainImage, PlainBitmap;
    hide Boot.KernelFirst, Boot.KernelLast, Boot.BitmapFirst, Boot.BitmapLast;
  }

  lemma BootFreeParts(regions: seq<Region>, boot: Boot, top: nat, f: Pfn)
    requires top < BITMAP_PAGES && f in BootFree(regions, boot, top)
    ensures InRam(regions, f) && 0x10_0000 <= 4096 * f && !(boot.BitmapFirst() <= f < boot.BitmapLast())
  {
    hide InRam, Boot.BitmapFirst, Boot.BitmapLast, Boot.KernelFirst, Boot.KernelLast;
  }

  // Whatever clients hold was free at boot.
  lemma HeldWasFree(w: Shop, ops: seq<PageOp>, regions: seq<Region>, boot: Boot)
    requires w.phys.top == HighestPage(regions) && w.phys.free == BootFree(regions, boot, w.phys.top) && w.out == {}
    ensures w.phys.top < BITMAP_PAGES && ServeAll(w, ops).out <= BootFree(regions, boot, w.phys.top)
  {
    BootFreeIsRam(regions, boot, w.phys.top);
    hide BootFree, HighestPage;
    NextPage(w, ops, w.phys.free);
  }

  /** From boot on, no page ever handed out holds a byte of the bitmap, wherever the map says that memory is. */
  lemma BitmapNeverHandedOut(w: Shop, ops: seq<PageOp>, regions: seq<Region>, boot: Boot, b: nat)
    requires w.phys.top == HighestPage(regions) && w.phys.free == BootFree(regions, boot, w.phys.top) && w.out == {}
    requires PlainBitmap(boot) && boot.bitmap <= b < boot.bitmap + 0x10_0000
    ensures forall f :: f in ServeAll(w, ops).out ==> f != ImageFrame(boot, b)
  {
    hide BootFree, HighestPage, ServeAll, InRam, Boot.BitmapFirst, Boot.BitmapLast, PlainBitmap;
    HeldWasFree(w, ops, regions, boot);
    forall f | f in ServeAll(w, ops).out ensures f != ImageFrame(boot, b) {
      BootFreeParts(regions, boot, w.phys.top, f);
      BitmapExact(boot, f);
    }
  }

  /** From boot on, every page handed out is wholly within a usable region and at or above one mebibyte. */
  lemma OnlyUsableHandedOut(w: Shop, ops: seq<PageOp>, regions: seq<Region>, boot: Boot)
    requires w.phys.top == HighestPage(regions) && w.phys.free == BootFree(regions, boot, w.phys.top) && w.out == {}
    requires PlainMap(regions)
    ensures forall f :: f in ServeAll(w, ops).out ==> Covered(regions, f) && 0x10_0000 <= 4096 * f
  {
    hide BootFree, HighestPage, ServeAll, InRam, Covered, PlainMap;
    HeldWasFree(w, ops, regions, boot);
    forall f | f in ServeAll(w, ops).out ensures Covered(regions, f) && 0x10_0000 <= 4096 * f {
      BootFreeParts(regions, boot, w.phys.top, f);
      RamExact(regions, f);
    }
  }
}
