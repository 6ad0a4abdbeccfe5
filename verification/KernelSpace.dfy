/** The kernel's own pagemap as boot leaves it: the direct map of memory, the kernel image, and the heap. */
module KernelSpace {
  import opened Machine
  import opened HeapMem
  import opened Words
  import opened Pte
  import opened PageTree
  import opened PhysMem
  import opened VmmSpec
  import opened VmmMap
  import opened VmmRun
  import opened VirtAddr

  const HHDM: nat := 0xffff_8000_0000_0000
  const HHDM_PAGE: Vpn := 0x8_0000_0000
  // Physical memory ends below 2^40.
  const PHYS_END: nat := 0x100_0000_0000
  const HEAP_PAGE: Vpn := 0x8_1000_0000
  const IDENTITY_MAP_LIMIT: nat := 0x10_0000
  const KERNEL_LOWEST: nat := 0xffff_ffff_8000_0000
  const DATA_FLAGS: bv64 := PRESENT | WRITABLE | NX

  // Frames of memory below PHYS_END.
  type Ppn = f: nat | f < PHYS_END / PAGE_SIZE

  function Key(n: Vpn): Path {
    PathOf(Virt(n))
  }

  /** Where the kernel image is, and its sections; all are addresses. */
  datatype Image = Image(physBase: nat, virtBase: nat, textStart: nat, textEnd: nat, rodataStart: nat, rodataEnd: nat,
                         dataStart: nat, bssEnd: nat) {
    function End(): nat {
      AlignUp(bssEnd)
    }

    /** In the top two gigabytes of the address space, on page boundaries, and within nameable memory. */
    predicate Ok() {
      && virtBase % PAGE_SIZE == 0 && physBase % PAGE_SIZE == 0
      && KERNEL_LOWEST <= virtBase <= bssEnd && bssEnd + PAGE_SIZE < U64
      && physBase + (End() - virtBase) <= FRAMES * PAGE_SIZE
    }

    function Flags(v: nat): bv64 {
      if textStart <= v < textEnd then PRESENT
      else if rodataStart <= v < rodataEnd then PRESENT | NX
      else if dataStart <= v < End() then DATA_FLAGS
      else DATA_FLAGS
    }

    predicate Has(n: Vpn) {
      virtBase <= Canonical(n) < End()
    }

    /** The frame page n of the image is in. */
    function FrameOf(n: Vpn): Pfn {
      var a := Canonical(n) - virtBase + physBase;
      if 0 <= a && a / PAGE_SIZE < FRAMES then a / PAGE_SIZE else 0
    }
  }

  predicate IsHhdm(n: Vpn) {
    HHDM_PAGE <= n < HEAP_PAGE
  }

  predicate IsHeap(n: Vpn) {
    HEAP_PAGE <= n < HEAP_PAGE + INITIAL_HEAP_PAGES
  }

  predicate IsLow(n: Vpn) {
    n < IDENTITY_MAP_LIMIT / PAGE_SIZE
  }

  ghost predicate HeapLeaf(e: bv64) {
    exists f: Pfn :: e == LeafEntry(Addr(f), DATA_FLAGS)
  }

  /** What page n may be mapped to. */
  ghost predicate Planned(img: Image, n: Vpn, e: bv64) {
    if IsHhdm(n) then e == LeafEntry(Addr(n - HHDM_PAGE), DATA_FLAGS)
    else if IsHeap(n) then HeapLeaf(e)
    else if IsLow(n) then e == LeafEntry(Addr(n), DATA_FLAGS)
    else img.Has(n) && e == LeafEntry(Addr(img.FrameOf(n)), img.Flags(Canonical(n)))
  }

  ghost predicate AsPlanned(img: Image, a: PageMap) {
    forall n: Vpn :: Key(n) in a ==> Planned(img, n, a[Key(n)])
  }

  lemma AddPlanned(img: Image, a: PageMap, n: Vpn, e: bv64)
    requires AsPlanned(img, a) && Planned(img, n, e)
    ensures AsPlanned(img, a[Key(n) := e])
  {
    hide PathOf, Virt, Planned;
    var b := a[Key(n) := e];
    forall m: Vpn | Key(m) in b ensures Planned(img, m, b[Key(m)]) {
      PathsDiffer(n, m);
    }
  }

  /** The page with a given address. */
  function PageAt(v: nat): Vpn {
    v / PAGE_SIZE % PAGES
  }

  lemma KernelPage(v: nat)
    requires KERNEL_LOWEST <= v < U64 && v % PAGE_SIZE == 0
    ensures Canonical(PageAt(v)) == v
    ensures !IsHhdm(PageAt(v)) && !IsHeap(PageAt(v)) && !IsLow(PageAt(v))
    ensures forall n: Vpn :: Canonical(n) == v ==> n == PageAt(v)
  {
  }

  lemma DirectPage(p: nat)
    requires p < PHYS_END && p % PAGE_SIZE == 0
    ensures PageAt((p + HHDM) % U64) == HHDM_PAGE + p / PAGE_SIZE && IsHhdm(HHDM_PAGE + p / PAGE_SIZE)
    ensures Canonical(HHDM_PAGE + p / PAGE_SIZE) == p + HHDM
    ensures PageAt(p) == p / PAGE_SIZE && Canonical(p / PAGE_SIZE) == p
  {
  }

  lemma HeapPage(i: nat)
    requires i < INITIAL_HEAP_PAGES
    ensures PageAt(HEAP_START + i * PAGE_SIZE) == HEAP_PAGE + i && IsHeap(HEAP_PAGE + i) && !IsHhdm(HEAP_PAGE + i)
    ensures Canonical(HEAP_PAGE + i) == HEAP_START + i * PAGE_SIZE
  {
  }

  /** The pagemap at root refines a, and is the only one. */
  ghost predicate Is(s: Phys, root: Pfn, a: PageMap) {
    Consistent(s, map[root := a])
  }

  /** Frames that are free or hold one of the pagemap's tables. */
  ghost function Pool(s: Phys, root: Pfn): set<Pfn> {
    s.free + Tables(s.mem, root)
  }

  lemma MapStep(s: Phys, root: Pfn, a: PageMap, n: Vpn, f: Pfn, flags: bv64)
    requires Is(s, root, a)
    ensures var (s1, ok) := Mapped(s, root, Virt(n), Addr(f), flags);
      && Pool(s1, root) == Pool(s, root)
      && (ok ==> Is(s1, root, a[Key(n) := LeafEntry(Addr(f), flags)]))
  {
    hide PathOf, Virt, Mapped, Owned, Refines, LeavesPresent, Tables, LeafEntry, Addr;
    var op := Map(root, Virt(n), Addr(f), flags);
    StepConsistent(s, map[root := a], op);
    RootOwned(s, root, a);
    ExecPool(s, op);
    assert map[root := a][root := a[Key(n) := LeafEntry(Addr(f), flags)]] ==
      map[root := a[Key(n) := LeafEntry(Addr(f), flags)]];
  }

  lemma RootOwned(s: Phys, root: Pfn, a: PageMap)
    requires Is(s, root, a)
    ensures Sane(s) && Owned(s, root, 4, false) && Refines(s.mem, root, a) && LeavesPresent(a)
  {
    hide Owned, Refines, LeavesPresent, Sane;
    assert root in map[root := a];
  }

  lemma ExecPool(s: Phys, op: Op)
    requires Sane(s) && Owned(s, op.root, 4, false)
    ensures Pool(Exec(s, op).0, op.root) == Pool(s, op.root)
  {
    ExecConfined(s, op);
    hide Exec, Owned, Tables;
  }

  method MapOne(pm: PhysicalMemory, root: Pfn, n: Vpn, f: Pfn, flags: bv64, ghost a: PageMap) returns (ok: bool)
    requires pm.Valid() && Is(pm.View(), root, a)
    modifies pm`usedPages, pm`freePages, pm`mem, pm.bitmap
    ensures pm.Valid() && Pool(pm.View(), root) == old(Pool(pm.View(), root))
    ensures ok ==> Is(pm.View(), root, a[Key(n) := LeafEntry(Addr(f), flags)])
  {
    hide Is, Pool, Mapped, Virt, Addr, LeafEntry;
    MapStep(pm.View(), root, a, n, f, flags);
    ok := MapPage(pm, root, Virt(n), Addr(f), flags);
  }

  /** All pages of the kernel image below address v are mapped. */
  ghost predicate ImageMapped(img: Image, a: PageMap, v: nat) {
    forall n: Vpn :: img.Has(n) && Canonical(n) < v ==> Key(n) in a
  }

  lemma ImageStep(img: Image, a: PageMap, v: nat, e: bv64)
    requires img.Ok() && img.virtBase <= v < img.End() && v % PAGE_SIZE == 0
    requires ImageMapped(img, a, v)
    ensures Canonical(PageAt(v)) == v && ImageMapped(img, a[Key(PageAt(v)) := e], v + PAGE_SIZE)
  {
    KernelPage(v);
    hide PathOf, Virt, Key, PageAt;
  }

  lemma ImageFrame(img: Image, v: nat, n: Vpn)
    requires img.Ok() && img.virtBase <= v < img.End() && Canonical(n) == v
    ensures (v - img.virtBase + img.physBase) / PAGE_SIZE == img.FrameOf(n)
  {
    assert v - img.virtBase + img.physBase < FRAMES * PAGE_SIZE;
    hide Canonical;
  }

  lemma ImageLeaf(img: Image, v: nat, f: nat)
    requires img.Ok() && img.virtBase <= v < img.End() && v % PAGE_SIZE == 0
    requires f == (v - img.virtBase + img.physBase) / PAGE_SIZE
    ensures f < FRAMES && Planned(img, PageAt(v), LeafEntry(Addr(f), img.Flags(v)))
  {
    KernelPage(v);
    ImageFrame(img, v, PageAt(v));
    hide Addr, LeafEntry, PageAt, Canonical, HeapLeaf;
  }

  /** vmm_init's first loop: the kernel image, section by section. */
  method MapImage(pm: PhysicalMemory, root: Pfn, img: Image, ghost a: PageMap) returns (ok: bool, ghost b: PageMap)
    requires pm.Valid() && Is(pm.View(), root, a) && img.Ok() && AsPlanned(img, a)
    modifies pm`usedPages, pm`freePages, pm`mem, pm.bitmap
    ensures pm.Valid()
    ensures ok ==> Is(pm.View(), root, b) && AsPlanned(img, b) && a.Keys <= b.Keys && ImageMapped(img, b, img.End())
  {
    hide Is, AsPlanned, ImageMapped, Key, LeafEntry, Addr, PageAt, Planned, Canonical, Pool;
    hide Image.Ok, Image.Flags, Image.FrameOf;
    b := a;
    var v := img.virtBase;
    NoImageYet(img, a);
    while v < img.End()
      invariant pm.Valid() && Is(pm.View(), root, b) && AsPlanned(img, b) && a.Keys <= b.Keys
      invariant img.virtBase <= v <= img.End() && v % PAGE_SIZE == 0 && ImageMapped(img, b, v)
    {
      var p := v - img.virtBase + img.physBase;
      ImageLeaf(img, v, p / PAGE_SIZE);
      ok := MapOne(pm, root, PageAt(v), p / PAGE_SIZE, img.Flags(v), b);
      if !ok {
        return false, b;
      }
      ghost var e := LeafEntry(Addr(p / PAGE_SIZE), img.Flags(v));
      AddPlanned(img, b, PageAt(v), e);
      ImageStep(img, b, v, e);
      b := b[Key(PageAt(v)) := e];
      v := v + PAGE_SIZE;
    }
    return true, b;
  }

  lemma NoImageYet(img: Image, a: PageMap)
    ensures ImageMapped(img, a, img.virtBase)
    ensures img.Ok() ==> img.virtBase <= img.End() && img.virtBase % PAGE_SIZE == 0 && img.End() % PAGE_SIZE == 0
  {
    hide Key;
  }

  /** The page of the direct map for frame x. */
  function DirectKey(x: Ppn): Path {
    Key(HHDM_PAGE + x)
  }

  /** The frames from first on, below last, are mapped in the direct map. */
  ghost predicate DirectMapped(a: PageMap, first: nat, last: nat) {
    forall x: Ppn :: first <= x < last ==> DirectKey(x) in a
  }

  /** The low ones among them are mapped to themselves as well. */
  ghost predicate LowMapped(a: PageMap, first: nat, last: nat) {
    forall x: Vpn :: first <= x < last && IsLow(x) ==> Key(x) in a
  }

  ghost predicate RegionMapped(a: PageMap, r: Region) {
    DirectMapped(a, r.First(), r.Last()) && LowMapped(a, r.First(), r.Last())
  }

  lemma DirectLeaf(img: Image, p: nat)
    requires p < PHYS_END && p % PAGE_SIZE == 0
    ensures Key(PageAt((p + HHDM) % U64)) == DirectKey(p / PAGE_SIZE)
    ensures Planned(img, PageAt((p + HHDM) % U64), LeafEntry(Addr(p / PAGE_SIZE), DATA_FLAGS))
  {
    DirectPage(p);
    hide Addr, LeafEntry, PageAt, Canonical, HeapLeaf, PathOf, Virt;
  }

  lemma IdentityLeaf(img: Image, p: nat)
    requires p < IDENTITY_MAP_LIMIT && p % PAGE_SIZE == 0
    ensures PageAt(p) == p / PAGE_SIZE && Planned(img, PageAt(p), LeafEntry(Addr(p / PAGE_SIZE), DATA_FLAGS))
  {
    DirectPage(p);
    hide Addr, LeafEntry, PageAt, Canonical, HeapLeaf;
  }

  lemma DirectStep(a: PageMap, first: nat, p: nat, e: bv64)
    requires DirectMapped(a, first, p / PAGE_SIZE) && p < PHYS_END && p % PAGE_SIZE == 0
    ensures DirectMapped(a[DirectKey(p / PAGE_SIZE) := e], first, (p + PAGE_SIZE) / PAGE_SIZE)
  {
    hide DirectKey;
  }

  /** vmm_init's second loop, for one region: the direct map. */
  method MapDirect(pm: PhysicalMemory, root: Pfn, img: Image, base: nat, top: nat, ghost a: PageMap)
    returns (ok: bool, ghost b: PageMap)
    requires pm.Valid() && Is(pm.View(), root, a) && AsPlanned(img, a)
    requires base <= top <= PHYS_END && base % PAGE_SIZE == 0 && top % PAGE_SIZE == 0
    modifies pm`usedPages, pm`freePages, pm`mem, pm.bitmap
    ensures pm.Valid()
    ensures ok ==> Is(pm.View(), root, b) && AsPlanned(img, b) && a.Keys <= b.Keys
    ensures ok ==> DirectMapped(b, base / PAGE_SIZE, top / PAGE_SIZE)
  {
    hide Is, AsPlanned, DirectMapped, DirectKey, Key, LeafEntry, Addr, PageAt, Planned, Pool;
    b := a;
    NoDirectYet(a, base / PAGE_SIZE);
    var p := base;
    while p < top
      invariant pm.Valid() && Is(pm.View(), root, b) && AsPlanned(img, b) && a.Keys <= b.Keys
      invariant base <= p <= top && p % PAGE_SIZE == 0 && DirectMapped(b, base / PAGE_SIZE, p / PAGE_SIZE)
    {
      DirectLeaf(img, p);
      ok := MapOne(pm, root, PageAt((p + HHDM) % U64), p / PAGE_SIZE, DATA_FLAGS, b);
      if !ok {
        return false, b;
      }
      ghost var e := LeafEntry(Addr(p / PAGE_SIZE), DATA_FLAGS);
      AddPlanned(img, b, PageAt((p + HHDM) % U64), e);
      DirectStep(b, base / PAGE_SIZE, p, e);
      b := b[DirectKey(p / PAGE_SIZE) := e];
      p := p + PAGE_SIZE;
    }
    return true, b;
  }

  lemma NoDirectYet(a: PageMap, first: nat)
    ensures DirectMapped(a, first, first)
  {
  }

  /** Its third loop: what lies below one megabyte, mapped to itself as well. */
  method MapIdentity(pm: PhysicalMemory, root: Pfn, img: Image, base: nat, top: nat, ghost a: PageMap)
    returns (ok: bool, ghost b: PageMap)
    requires pm.Valid() && Is(pm.View(), root, a) && AsPlanned(img, a)
    requires base % PAGE_SIZE == 0 && top <= IDENTITY_MAP_LIMIT
    modifies pm`usedPages, pm`freePages, pm`mem, pm.bitmap
    ensures pm.Valid()
    ensures ok ==> Is(pm.View(), root, b) && AsPlanned(img, b) && a.Keys <= b.Keys
    ensures ok ==> forall x: Vpn :: base <= x * PAGE_SIZE < top ==> Key(x) in b
  {
    hide Is, AsPlanned, Key, LeafEntry, Addr, PageAt, Planned, Pool;
    b := a;
    var p := base;
    while p < top
      invariant pm.Valid() && Is(pm.View(), root, b) && AsPlanned(img, b) && a.Keys <= b.Keys
      invariant base <= p && p % PAGE_SIZE == 0
      invariant forall x: Vpn :: base <= x * PAGE_SIZE < p ==> Key(x) in b
    {
      IdentityLeaf(img, p);
      ok := MapOne(pm, root, PageAt(p), p / PAGE_SIZE, DATA_FLAGS, b);
      if !ok {
        return false, b;
      }
      ghost var e := LeafEntry(Addr(p / PAGE_SIZE), DATA_FLAGS);
      AddPlanned(img, b, PageAt(p), e);
      b := b[Key(PageAt(p)) := e];
      p := p + PAGE_SIZE;
    }
    return true, b;
  }

  /** Every whole page of the first k regions has its place in the direct map, and in the low pages if it is one. */
  ghost predicate RegionsMapped(regions: seq<Region>, k: nat, a: PageMap) {
    forall i :: 0 <= i < k && i < |regions| ==> RegionMapped(a, regions[i])
  }

  predicate RegionsFit(regions: seq<Region>) {
    forall i :: 0 <= i < |regions| ==> regions[i].base + regions[i].length <= PHYS_END
  }

  lemma StillInRegion(a: PageMap, b: PageMap, r: Region)
    requires a.Keys <= b.Keys
    ensures DirectMapped(a, r.First(), r.Last()) ==> DirectMapped(b, r.First(), r.Last())
    ensures RegionMapped(a, r) ==> RegionMapped(b, r)
  {
    hide DirectKey, Key;
    hide Region.First, Region.Last;
    assert forall v :: v in a ==> v in b.Keys;
  }

  lemma StillMapped(img: Image, regions: seq<Region>, k: nat, a: PageMap, b: PageMap)
    requires a.Keys <= b.Keys
    ensures RegionsMapped(regions, k, a) ==> RegionsMapped(regions, k, b)
    ensures ImageMapped(img, a, img.End()) ==> ImageMapped(img, b, img.End())
  {
    hide RegionMapped, Key;
    assert forall v :: v in a ==> v in b.Keys;
    forall i | 0 <= i < |regions| ensures RegionMapped(a, regions[i]) ==> RegionMapped(b, regions[i]) {
      StillInRegion(a, b, regions[i]);
    }
  }

  lemma NextRegion(regions: seq<Region>, k: nat, a: PageMap, b: PageMap)
    requires k < |regions| && a.Keys <= b.Keys && RegionsMapped(regions, k, a) && RegionMapped(b, regions[k])
    ensures RegionsMapped(regions, k + 1, b)
  {
    hide RegionMapped;
    forall i | 0 <= i < k ensures RegionMapped(b, regions[i]) {
      StillInRegion(a, b, regions[i]);
    }
  }

  lemma NothingToMap(a: PageMap, r: Region)
    requires r.base + r.length <= PHYS_END
    ensures AlignUp(r.base) % PAGE_SIZE == 0 && AlignDown(r.Top()) % PAGE_SIZE == 0 && AlignDown(r.Top()) <= PHYS_END
    ensures AlignDown(r.Top()) <= AlignUp(r.base) ==> RegionMapped(a, r)
  {
    hide DirectKey, Key;
  }

  // The low pages of a region, once the third loop has run or has nothing to do.
  lemma LowOnes(a: PageMap, r: Region, top: nat)
    requires r.base + r.length <= PHYS_END && top == Min(AlignDown(r.Top()), IDENTITY_MAP_LIMIT)
    requires forall x: Vpn :: AlignUp(r.base) <= x * PAGE_SIZE < top ==> Key(x) in a
    ensures LowMapped(a, r.First(), r.Last())
  {
    hide Key;
    forall x: Vpn | r.First() <= x < r.Last() && IsLow(x) ensures AlignUp(r.base) <= x * PAGE_SIZE < top {
    }
  }

  function Min(a: nat, b: nat): nat {
    if a > b then b else a
  }

  /** One region of the memory map. */
  method MapRegion(pm: PhysicalMemory, root: Pfn, img: Image, r: Region, ghost a: PageMap)
    returns (ok: bool, ghost b: PageMap)
    requires pm.Valid() && Is(pm.View(), root, a) && AsPlanned(img, a) && r.base + r.length <= PHYS_END
    modifies pm`usedPages, pm`freePages, pm`mem, pm.bitmap
    ensures pm.Valid()
    ensures ok ==> Is(pm.View(), root, b) && AsPlanned(img, b) && a.Keys <= b.Keys && RegionMapped(b, r)
  {
    hide Is, AsPlanned, Key, Planned, Pool, DirectMapped, LowMapped;
    var mapBase, mapTop := AlignUp(r.base), AlignDown(r.Top());
    NothingToMap(a, r);
    if mapTop <= mapBase {
      return true, a;
    }
    ok, b := MapDirect(pm, root, img, mapBase, mapTop, a);
    if !ok {
      return;
    }
    if mapBase < IDENTITY_MAP_LIMIT {
      var identityTop := if mapTop > IDENTITY_MAP_LIMIT then IDENTITY_MAP_LIMIT else mapTop;
      ghost var c := b;
      ok, b := MapIdentity(pm, root, img, mapBase, identityTop, c);
      if !ok {
        return;
      }
      StillInRegion(c, b, r);
    }
    LowOnes(b, r, Min(mapTop, IDENTITY_MAP_LIMIT));
  }

  /** What vmm_init leaves behind. */
  ghost predicate Initialised(s: Phys, root: Pfn, img: Image, regions: seq<Region>, a: PageMap) {
    && Is(s, root, a) && AsPlanned(img, a)
    && ImageMapped(img, a, img.End()) && RegionsMapped(regions, |regions|, a)
  }

  /** vmm_init; false where the kernel panics. */
  method VmmInit(pm: PhysicalMemory, img: Image, regions: seq<Region>) returns (ok: bool, root: Pfn, ghost a: PageMap)
    requires pm.Valid() && img.Ok() && RegionsFit(regions)
    modifies pm`usedPages, pm`freePages, pm`mem, pm.bitmap
    ensures pm.Valid() && (ok ==> Initialised(pm.View(), root, img, regions, a))
  {
    hide Is, AsPlanned, Key, Planned, Pool, ImageMapped, RegionsMapped, DirectMapped;
    ghost var s := pm.View();
    ValidIsSane(pm);
    root := pm.AllocatePage();
    if root == 0 {
      return false, root, map[];
    }
    pm.mem := pm.mem[root := ZeroPage()];
    FreshRoot(s, pm.View(), root, img);
    ok, a := MapImage(pm, root, img, map[]);
    if !ok {
      return;
    }
    NoRegionsYet(regions, a);
    for i := 0 to |regions|
      invariant pm.Valid() && Is(pm.View(), root, a) && AsPlanned(img, a)
      invariant ImageMapped(img, a, img.End()) && RegionsMapped(regions, i, a)
    {
      ghost var b := a;
      ok, a := MapRegion(pm, root, img, regions[i], b);
      if !ok {
        return;
      }
      StillMapped(img, regions, i, b, a);
      NextRegion(regions, i, b, a);
    }
    ok := true;
  }

  lemma ValidIsSane(pm: PhysicalMemory)
    requires pm.Valid()
    ensures Sane(pm.View())
  {
    hide Bit, Balanced;
  }

  lemma NoRegionsYet(regions: seq<Region>, a: PageMap)
    ensures RegionsMapped(regions, 0, a)
  {
  }

  lemma FreshRoot(s: Phys, s1: Phys, root: Pfn, img: Image)
    requires Sane(s) && root == Allocated(s).1 && root != 0
    requires var s0 := Allocated(s).0; s1 == s0.(mem := s0.mem[root := ZeroPage()])
    ensures Is(s1, root, map[]) && AsPlanned(img, map[])
  {
    EmptySpace(s1, root);
    hide Consistent, PathOf;
  }

  /** Frames fs back the first pages of the heap: all different, and neither free nor tables. */
  ghost predicate HeapBacked(s: Phys, root: Pfn, a: PageMap, fs: seq<Pfn>) {
    && |fs| <= INITIAL_HEAP_PAGES
    && (forall i :: 0 <= i < |fs| ==>
      && fs[i] !in Pool(s, root) && HeapKey(i) in a
      && a[HeapKey(i)] == LeafEntry(Addr(fs[i]), DATA_FLAGS))
    && (forall i, j :: 0 <= i < j < |fs| ==> fs[i] != fs[j])
  }

  function HeapKey(i: nat): Path {
    if i < INITIAL_HEAP_PAGES then Key(HEAP_PAGE + i) else Key(HEAP_PAGE)
  }

  lemma HeapLeafPlanned(img: Image, i: nat, f: Pfn)
    requires i < INITIAL_HEAP_PAGES
    ensures PageAt(HEAP_START + i * PAGE_SIZE) == HEAP_PAGE + i
    ensures Planned(img, HEAP_PAGE + i, LeafEntry(Addr(f), DATA_FLAGS))
  {
    HeapPage(i);
    hide Addr, LeafEntry, PageAt, Canonical;
    assert HeapLeaf(LeafEntry(Addr(f), DATA_FLAGS));
  }

  /** Taking a free page that is none of the tables leaves the pagemap as it is. */
  lemma TakePage(s: Phys, root: Pfn, a: PageMap)
    requires Is(s, root, a) && s.free != {}
    ensures var (s1, f) := Allocated(s);
      Is(s1, root, a) && Pool(s1, root) == Pool(s, root) - {f} && f in Pool(s, root)
  {
    RootOwned(s, root, a);
    var (s1, f) := Allocated(s);
    hide Frame, Present, Walk, PathOf, IsTree, Foot;
    FootFrame(s.mem, s1.mem, root, 4, false);
    forall va: bv64 ensures Walk(s1.mem, root, 4, PathOf(va)) == Walk(s.mem, root, 4, PathOf(va)) {
      WalkFrame(s.mem, s1.mem, root, 4, PathOf(va));
    }
    OneSpace(s1, root, a);
  }

  lemma OneSpace(s: Phys, root: Pfn, a: PageMap)
    requires Sane(s) && Owned(s, root, 4, false) && Refines(s.mem, root, a) && LeavesPresent(a)
    ensures Is(s, root, a)
  {
    hide Owned, Refines, LeavesPresent, Tables, Sane;
  }

  lemma BackOne(s: Phys, s1: Phys, s2: Phys, root: Pfn, a: PageMap, fs: seq<Pfn>, f: Pfn)
    requires HeapBacked(s, root, a, fs) && |fs| < INITIAL_HEAP_PAGES
    requires Pool(s1, root) == Pool(s, root) - {f} && f in Pool(s, root) && Pool(s2, root) == Pool(s1, root)
    ensures HeapBacked(s2, root, a[HeapKey(|fs|) := LeafEntry(Addr(f), DATA_FLAGS)], fs + [f])
  {
    hide Pool, LeafEntry, Addr, Key;
    var b, gs := a[HeapKey(|fs|) := LeafEntry(Addr(f), DATA_FLAGS)], fs + [f];
    forall i | 0 <= i < |gs|
      ensures gs[i] !in Pool(s2, root) && HeapKey(i) in b && b[HeapKey(i)] == LeafEntry(Addr(gs[i]), DATA_FLAGS)
    {
      if i < |fs| {
        HeapKeysDiffer(i, |fs|);
      }
    }
  }

  lemma HeapKeysDiffer(i: nat, j: nat)
    requires i < j < INITIAL_HEAP_PAGES
    ensures HeapKey(i) != HeapKey(j)
  {
    hide PathOf, Virt;
    PathsDiffer(HEAP_PAGE + i, HEAP_PAGE + j);
  }

  /** heap_init's loop; false where the kernel panics. */
  method HeapInit(pm: PhysicalMemory, root: Pfn, img: Image, regions: seq<Region>, ghost a: PageMap)
    returns (ok: bool, ghost b: PageMap, ghost fs: seq<Pfn>)
    requires pm.Valid() && Initialised(pm.View(), root, img, regions, a)
    modifies pm`usedPages, pm`freePages, pm`mem, pm.bitmap
    ensures pm.Valid()
    ensures ok ==> Initialised(pm.View(), root, img, regions, b)
    ensures ok ==> HeapBacked(pm.View(), root, b, fs) && |fs| == 256
  {
    hide Is, AsPlanned, Key, HeapKey, Planned, ImageMapped, RegionsMapped, DirectMapped, HeapBacked, Pool, LeafEntry,
        Addr, PageAt;
    b, fs := a, [];
    NoneBacked(pm.View(), root, a);
    for i := 0 to INITIAL_HEAP_PAGES
      invariant pm.Valid() && Initialised(pm.View(), root, img, regions, b)
      invariant |fs| == i && HeapBacked(pm.View(), root, b, fs)
    {
      ok, b, fs := AddHeapPage(pm, root, img, regions, i, b, fs);
      if !ok {
        return;
      }
    }
    ok := true;
  }

  lemma NoneBacked(s: Phys, root: Pfn, a: PageMap)
    ensures HeapBacked(s, root, a, [])
  {
  }

  // One turn of heap_init's loop.
  method AddHeapPage(pm: PhysicalMemory, root: Pfn, img: Image, regions: seq<Region>, i: nat, ghost a: PageMap,
                     ghost fs: seq<Pfn>)
    returns (ok: bool, ghost b: PageMap, ghost gs: seq<Pfn>)
    requires pm.Valid() && Initialised(pm.View(), root, img, regions, a)
    requires |fs| == i < INITIAL_HEAP_PAGES && HeapBacked(pm.View(), root, a, fs)
    modifies pm`usedPages, pm`freePages, pm`mem, pm.bitmap
    ensures pm.Valid()
    ensures ok ==> Initialised(pm.View(), root, img, regions, b)
    ensures ok ==> |gs| == i + 1 && HeapBacked(pm.View(), root, b, gs)
  {
    hide Is, AsPlanned, Key, HeapKey, Planned, ImageMapped, RegionsMapped, DirectMapped, HeapBacked, Pool, LeafEntry,
        Addr, PageAt;
    b, gs := a, fs;
    ghost var s := pm.View();
    var f := pm.AllocatePage();
    if f == 0 {
      return false, b, gs;
    }
    TakePage(s, root, a);
    ghost var s1 := pm.View();
    HeapLeafPlanned(img, i, f);
    HeapKeyIs(i);
    ok := MapOne(pm, root, PageAt(HEAP_START + i * PAGE_SIZE), f, DATA_FLAGS, a);
    if !ok {
      return;
    }
    b, gs := a[HeapKey(i) := LeafEntry(Addr(f), DATA_FLAGS)], fs + [f];
    BackOne(s, s1, pm.View(), root, a, fs, f);
    AddPlanned(img, a, HEAP_PAGE + i, LeafEntry(Addr(f), DATA_FLAGS));
    StillMapped(img, regions, |regions|, a, b);
  }

  lemma HeapKeyIs(i: nat)
    requires i < INITIAL_HEAP_PAGES
    ensures HeapKey(i) == Key(HEAP_PAGE + i)
  {
  }

  lemma AddrField(b: bv40)
    ensures AddrBits(b) & !(ADDR_MASK | PAGE_MASK) == 0 && AddrBits(b) & !PAGE_MASK == AddrBits(b)
  {
  }

  lemma AddrIsAddress(f: Pfn)
    ensures Addr(f) & !(ADDR_MASK | PAGE_MASK) == 0 && Addr(f) & !PAGE_MASK == Addr(f)
  {
    hide AddrBits;
    var b := BitsOf(f);
    ToNatAndBack(b);
    AddrField(b);
  }

  /** The address in frame f at the same offset as va. */
  function InFrame(f: Pfn, va: bv64): bv64 {
    Addr(f) + (va & PAGE_MASK)
  }

  /** A leaf translates to its frame, at the same offset. */
  lemma LeafTarget(f: Pfn, flags: bv64, va: bv64)
    requires flags & ADDR_MASK == 0
    ensures Target(LeafEntry(Addr(f), flags), va) == InFrame(f, va)
  {
    AddrIsAddress(f);
    LeafPresent(Addr(f), flags);
    LeafAddress(Addr(f), flags);
    hide Addr, Present, LeafEntry;
  }

  lemma FlagsClear(img: Image, v: nat)
    ensures DATA_FLAGS & ADDR_MASK == 0 && img.Flags(v) & ADDR_MASK == 0
  {
  }

  lemma WalkIs(s: Phys, root: Pfn, a: PageMap, n: Vpn, va: bv64)
    requires Is(s, root, a) && Key(n) in a && PathOf(va) == Key(n)
    ensures Walk(s.mem, root, 4, PathOf(va)) == a[Key(n)]
  {
    hide PathOf, Virt, Walk, Owned, LeavesPresent;
    RootOwned(s, root, a);
  }

  /** After boot, every address in a whole page of the memory map translates, through the direct map, to that page. */
  lemma DirectMapTranslates(s: Phys, root: Pfn, img: Image, regions: seq<Region>, a: PageMap, i: nat, x: Ppn, va: bv64)
    requires Initialised(s, root, img, regions, a)
    requires i < |regions| && regions[i].First() <= x < regions[i].Last() && PathOf(va) == PathOf(Virt(HHDM_PAGE + x))
    ensures Target(Walk(s.mem, root, 4, PathOf(va)), va) == InFrame(x, va)
    ensures Number(Virt(HHDM_PAGE + x)) == HHDM + x * PAGE_SIZE
  {
    hide PathOf, Virt, Walk, LeafEntry, Addr, Target, Is, InFrame, Number, Canonical, Planned, PageAt;
    DirectHas(s, root, img, regions, a, i, x);
    WalkIs(s, root, a, HHDM_PAGE + x, va);
    DirectPlanned(img, x, a[Key(HHDM_PAGE + x)]);
    FlagsClear(img, 0);
    LeafTarget(x, DATA_FLAGS, va);
    VirtIsCanonical(HHDM_PAGE + x);
    DirectPage(x * PAGE_SIZE);
  }

  lemma DirectHas(s: Phys, root: Pfn, img: Image, regions: seq<Region>, a: PageMap, i: nat, x: Ppn)
    requires Initialised(s, root, img, regions, a) && i < |regions| && regions[i].First() <= x < regions[i].Last()
    ensures Key(HHDM_PAGE + x) in a && Planned(img, HHDM_PAGE + x, a[Key(HHDM_PAGE + x)])
  {
    hide Is, Planned, ImageMapped, Key, LowMapped;
    assert RegionMapped(a, regions[i]);
    assert DirectKey(x) in a;
  }

  lemma DirectPlanned(img: Image, x: Ppn, e: bv64)
    requires Planned(img, HHDM_PAGE + x, e)
    ensures e == LeafEntry(Addr(x), DATA_FLAGS)
  {
    hide LeafEntry, Addr, HeapLeaf, Canonical;
  }

  /** The kernel image keeps its linear translation. */
  lemma ImageTranslates(s: Phys, root: Pfn, img: Image, regions: seq<Region>, a: PageMap, n: Vpn, va: bv64)
    requires Initialised(s, root, img, regions, a) && img.Ok() && img.Has(n) && PathOf(va) == PathOf(Virt(n))
    ensures Target(Walk(s.mem, root, 4, PathOf(va)), va) == InFrame(img.FrameOf(n), va)
    ensures img.FrameOf(n) * PAGE_SIZE == Number(Virt(n)) - img.virtBase + img.physBase
  {
    hide PathOf, Virt, Walk, LeafEntry, Addr, Target, Is, Canonical, InFrame, Number;
    hide Image.Flags, Image.FrameOf, Image.Ok, Image.Has, Planned, DirectMapped;
    ImageNumbers(img, n);
    VirtIsCanonical(n);
    ImageHas(s, root, img, regions, a, n);
    WalkIs(s, root, a, n, va);
    ImagePlanned(img, n, a[Key(n)]);
    FlagsClear(img, Canonical(n));
    LeafTarget(img.FrameOf(n), img.Flags(Canonical(n)), va);
  }

  lemma ImageHas(s: Phys, root: Pfn, img: Image, regions: seq<Region>, a: PageMap, n: Vpn)
    requires Initialised(s, root, img, regions, a) && img.Has(n)
    ensures Key(n) in a && Planned(img, n, a[Key(n)])
  {
    hide Key, Planned, Is, Canonical;
  }

  lemma ImagePlanned(img: Image, n: Vpn, e: bv64)
    requires !IsHhdm(n) && !IsHeap(n) && !IsLow(n) && Planned(img, n, e)
    ensures e == LeafEntry(Addr(img.FrameOf(n)), img.Flags(Canonical(n)))
  {
    hide LeafEntry, Addr, Canonical;
  }

  lemma ImageNumbers(img: Image, n: Vpn)
    requires img.Ok() && img.Has(n)
    ensures !IsHhdm(n) && !IsHeap(n) && !IsLow(n)
    ensures img.FrameOf(n) * PAGE_SIZE == Canonical(n) - img.virtBase + img.physBase
  {
  }

  lemma AddressHasNoFlags(b: bv40)
    ensures !WritableAndExecutable(LeafEntry(AddrBits(b), DATA_FLAGS))
    ensures !WritableAndExecutable(LeafEntry(AddrBits(b), PRESENT))
    ensures !WritableAndExecutable(LeafEntry(AddrBits(b), PRESENT | NX))
  {
  }

  lemma LeafIsSafe(f: Pfn, img: Image, v: nat)
    ensures !WritableAndExecutable(LeafEntry(Addr(f), DATA_FLAGS))
    ensures !WritableAndExecutable(LeafEntry(Addr(f), img.Flags(v)))
  {
    hide AddrBits, WritableAndExecutable, LeafEntry;
    var b := BitsOf(f);
    ToNatAndBack(b);
    AddressHasNoFlags(b);
  }

  lemma PlannedIsSafe(img: Image, n: Vpn, e: bv64)
    requires Planned(img, n, e)
    ensures !WritableAndExecutable(e)
  {
    hide Addr, LeafEntry, WritableAndExecutable, Canonical;
    if IsHeap(n) {
      var f: Pfn :| e == LeafEntry(Addr(f), DATA_FLAGS);
      LeafIsSafe(f, img, 0);
    } else {
      LeafIsSafe(if IsHhdm(n) then n - HHDM_PAGE else n % FRAMES, img, 0);
      LeafIsSafe(img.FrameOf(n), img, Canonical(n));
    }
  }

  /** After boot no page at all is both writable and executable. */
  lemma NothingWritableExecutable(s: Phys, root: Pfn, img: Image, regions: seq<Region>, a: PageMap, va: bv64)
    requires Initialised(s, root, img, regions, a)
    ensures !WritableAndExecutable(Walk(s.mem, root, 4, PathOf(va)))
  {
    hide PathOf, Virt, Walk, Planned, WritableAndExecutable, Is;
    var n := PageNumber(va);
    if Key(n) in a {
      WalkIs(s, root, a, n, va);
      PlannedIsSafe(img, n, a[Key(n)]);
    } else {
      NotMapped(s, root, a, va);
      ZeroIsSafe();
    }
  }

  lemma ZeroIsSafe()
    ensures !WritableAndExecutable(0)
  {
  }

  lemma NotMapped(s: Phys, root: Pfn, a: PageMap, va: bv64)
    requires Is(s, root, a) && PathOf(va) !in a
    ensures Walk(s.mem, root, 4, PathOf(va)) == 0
  {
    hide PathOf, Walk, Owned, LeavesPresent;
    RootOwned(s, root, a);
  }

  /** The heap's 256 pages translate to 256 different frames, none of them free and none a table. */
  lemma HeapTranslates(s: Phys, root: Pfn, a: PageMap, fs: seq<Pfn>, i: nat, va: bv64)
    requires Is(s, root, a) && HeapBacked(s, root, a, fs) && i < |fs| <= INITIAL_HEAP_PAGES
      && PathOf(va) == PathOf(Virt(HEAP_PAGE + i))
    ensures Target(Walk(s.mem, root, 4, PathOf(va)), va) == InFrame(fs[i], va)
    ensures fs[i] !in s.free && fs[i] !in Tables(s.mem, root)
    ensures forall j :: 0 <= j < |fs| && j != i ==> fs[j] != fs[i]
    ensures Number(Virt(HEAP_PAGE + i)) == HEAP_START + i * PAGE_SIZE
  {
    hide PathOf, Virt, Walk, LeafEntry, Addr, Target, Is, Canonical, Tables, InFrame, Number, PageAt, HeapBacked, Pool;
    BackedAt(s, root, a, fs, i);
    HeapAddress(i);
    WalkIs(s, root, a, HEAP_PAGE + i, va);
    FlagsClear(Image(0, 0, 0, 0, 0, 0, 0, 0), 0);
    LeafTarget(fs[i], DATA_FLAGS, va);
  }

  lemma HeapAddress(i: nat)
    requires i < INITIAL_HEAP_PAGES
    ensures Number(Virt(HEAP_PAGE + i)) == HEAP_START + i * PAGE_SIZE
  {
    VirtIsCanonical(HEAP_PAGE + i);
    HeapPage(i);
    hide Virt, Number;
  }

  lemma BackedAt(s: Phys, root: Pfn, a: PageMap, fs: seq<Pfn>, i: nat)
    requires HeapBacked(s, root, a, fs) && i < |fs|
    ensures i < INITIAL_HEAP_PAGES && fs[i] !in s.free && fs[i] !in Tables(s.mem, root)
    ensures Key(HEAP_PAGE + i) in a && a[Key(HEAP_PAGE + i)] == LeafEntry(Addr(fs[i]), DATA_FLAGS)
    ensures forall j :: 0 <= j < |fs| && j != i ==> fs[j] != fs[i]
  {
    hide Key, LeafEntry, Addr, Tables;
    assert HeapKey(i) in a && fs[i] !in Pool(s, root);
  }

  /** The frame behind heap address x. */
  ghost predicate ByteBacked(a: PageMap, fs: seq<Pfn>, x: nat, f: Pfn) {
    Key(PageAt(x)) in a && a[Key(PageAt(x))] == LeafEntry(Addr(f), DATA_FLAGS) && f in fs
  }

  lemma HeapByteBacked(s: Phys, root: Pfn, a: PageMap, fs: seq<Pfn>, x: nat, i: nat)
    requires HeapBacked(s, root, a, fs) && |fs| == INITIAL_HEAP_PAGES
    requires HEAP_START <= x < HEAP_END && i == (x - HEAP_START) / PAGE_SIZE
    ensures i < |fs| && ByteBacked(a, fs, x, fs[i])
  {
    HeapByte(x);
    hide Key, LeafEntry, Addr, HeapBacked, PageAt;
    BackedAt(s, root, a, fs, i);
  }

  lemma OffsetsDiffer(x: nat, y: nat)
    requires HEAP_START <= x && HEAP_START <= y && x != y
    requires (x - HEAP_START) / PAGE_SIZE == (y - HEAP_START) / PAGE_SIZE
    ensures x % PAGE_SIZE != y % PAGE_SIZE
  {
  }

  /** The heap's bytes, which the allocator of heap memory works on, have a byte of physical memory each: two
      different heap addresses lie in different mapped frames or at different offsets. */
  lemma HeapBytesApart(s: Phys, root: Pfn, a: PageMap, fs: seq<Pfn>, x: nat, y: nat) returns (f: Pfn, g: Pfn)
    requires HeapBacked(s, root, a, fs) && |fs| == INITIAL_HEAP_PAGES
    requires HEAP_START <= x < HEAP_END && HEAP_START <= y < HEAP_END && x != y
    ensures ByteBacked(a, fs, x, f) && ByteBacked(a, fs, y, g)
    ensures f != g || x % PAGE_SIZE != y % PAGE_SIZE
  {
    hide HeapBacked, ByteBacked;
    var i, j := (x - HEAP_START) / PAGE_SIZE, (y - HEAP_START) / PAGE_SIZE;
    HeapByteBacked(s, root, a, fs, x, i);
    HeapByteBacked(s, root, a, fs, y, j);
    f, g := fs[i], fs[j];
    if i == j {
      OffsetsDiffer(x, y);
    } else {
      BackedAt(s, root, a, fs, i);
    }
  }

  lemma HeapByte(x: nat)
    requires HEAP_START <= x < HEAP_END
    ensures (x - HEAP_START) / PAGE_SIZE < INITIAL_HEAP_PAGES && PageAt(x) == HEAP_PAGE + (x - HEAP_START) / PAGE_SIZE
    ensures x % PAGE_SIZE == (x - HEAP_START) % PAGE_SIZE
  {
  }
}
