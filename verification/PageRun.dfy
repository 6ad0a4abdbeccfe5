/** Runs of the page allocator: pages are conserved, handed out lowest first, and never from a reserved range. */
module PageRun {
  import opened Machine
  import opened Pte
  import opened PhysMem
  import opened VmmSpec

  /** Take a page, give one back, or write a word of one. */
  datatype PageOp = Take | Give(page: Pfn) | Put(page: Pfn, word: nat, value: bv64)

  /** The allocator and the pages its clients hold. */
  datatype Shop = Shop(phys: Phys, out: set<Pfn>)

  /** Clients give back and write only pages they hold. */
  ghost function Serve(w: Shop, op: PageOp): Shop {
    match op
    case Take =>
      var (s, f) := Allocated(w.phys);
      Shop(s, if f == 0 then w.out else w.out + {f})
    case Give(f) =>
      if f in w.out then Shop(Released(w.phys, f * PAGE_SIZE), w.out - {f}) else w
    case Put(f, i, v) =>
      if f in w.out && i < ENTRIES then w.(phys := w.phys.(mem := Write(w.phys.mem, f, i, v))) else w
  }

  ghost function ServeAll(w: Shop, ops: seq<PageOp>): Shop
    decreases |ops|
  {
    if ops == [] then w else ServeAll(Serve(w, ops[0]), ops[1..])
  }

  /** Free pages and pages held by clients are apart, and together they are the pages free at boot. */
  ghost predicate Conserved(w: Shop, boot: set<Pfn>) {
    Sane(w.phys) && w.phys.free !! w.out && w.phys.free + w.out == boot && forall f :: f in boot ==> 0 < f <= w.phys.top
  }

  lemma ServeConserves(w: Shop, op: PageOp, boot: set<Pfn>)
    requires Conserved(w, boot)
    ensures Conserved(Serve(w, op), boot) && Serve(w, op).phys.top == w.phys.top
  {
  }

  /** In every reachable state, the next page handed out is the lowest free one, was free at boot and is held by nobody;
      and there is none exactly if clients hold all the pages that were free at boot. */
  lemma {:induction false} NextPage(w: Shop, ops: seq<PageOp>, boot: set<Pfn>)
    requires Conserved(w, boot)
    ensures var v := ServeAll(w, ops); var f := Allocated(v.phys).1;
      && Conserved(v, boot)
      && (f == 0 <==> v.out == boot)
      && (f != 0 ==> f in boot && f !in v.out && forall g :: g in boot && g !in v.out ==> f <= g)
    decreases |ops|
  {
    if ops != [] {
      ServeConserves(w, ops[0], boot);
      NextPage(Serve(w, ops[0]), ops[1..], boot);
    }
  }

  /** In every reachable state, a page that is handed out reads zero in all its 512 words, whatever clients wrote to it
      before they gave it back; and it is the only page that changes. */
  lemma {:induction false} HandedOutZero(w: Shop, ops: seq<PageOp>, boot: set<Pfn>, f: Pfn)
    requires Conserved(w, boot)
    ensures var v := ServeAll(w, ops); var v1 := Serve(v, Take);
      if f in v1.out && f !in v.out then forall i: nat :: i < 512 ==> v1.phys.mem[f][i] == 0
      else v1.phys.mem[f] == v.phys.mem[f]
    decreases |ops|
  {
    if ops != [] {
      ServeConserves(w, ops[0], boot);
      HandedOutZero(Serve(w, ops[0]), ops[1..], boot, f);
    }
  }

  /** From boot on, no page handed out lies below 1 MiB, in the bitmap, or in the part of the kernel reserved. */
  lemma NeverReserved(w: Shop, ops: seq<PageOp>, regions: seq<Region>, boot: Boot)
    requires w.phys.top == HighestPage(regions) && w.phys.free == BootFree(regions, boot, w.phys.top) && w.out == {}
    ensures var f := Allocated(ServeAll(w, ops).phys).1;
      f != 0 ==>
        && InRam(regions, f)
        && PAGES_BELOW_1MB <= f
        && !(boot.KernelFirst() <= f < boot.KernelLast())
        && !(boot.BitmapFirst() <= f < boot.BitmapLast())
  {
    BootFreeIsRam(regions, boot, w.phys.top);
    NextPage(w, ops, w.phys.free);
  }

  /** The frame after the last one of the kernel image. */
  function ImageLast(boot: Boot): nat
    requires boot.virtualBase <= boot.bssEnd
  {
    (boot.physicalBase + AlignUp(boot.bssEnd - boot.virtualBase)) / PAGE_SIZE
  }

  /** Everything on page boundaries, the text section within the image, and no address near 2^64. */
  predicate PlainImage(boot: Boot) {
    && boot.virtualBase % PAGE_SIZE == 0 && boot.physicalBase % PAGE_SIZE == 0 && boot.textStart % PAGE_SIZE == 0
    && boot.virtualBase <= boot.textStart <= boot.bssEnd < U64
    && boot.physicalBase + (boot.bssEnd - boot.virtualBase) + PAGE_SIZE < U64
  }

  lemma AlignUpLess(x: nat, k: nat)
    requires k * PAGE_SIZE <= x && x + PAGE_SIZE < U64
    ensures AlignUp(x - k * PAGE_SIZE) == AlignUp(x) - k * PAGE_SIZE && AlignUp(x) % PAGE_SIZE == 0
      && AlignUp(x) < x + PAGE_SIZE
  {
    var y := x - k * PAGE_SIZE;
    assert (x + PAGE_SIZE - 1) / PAGE_SIZE == (y + PAGE_SIZE - 1) / PAGE_SIZE + k;
  }

  lemma PagesLess(a: nat, k: nat)
    requires k * PAGE_SIZE <= a
    ensures (a - k * PAGE_SIZE) / PAGE_SIZE == a / PAGE_SIZE - k
  {
  }

  lemma KernelLastIs(boot: Boot)
    requires PlainImage(boot)
    ensures boot.KernelLast() == (boot.physicalBase + AlignUp(boot.bssEnd - boot.textStart)) / PAGE_SIZE
  {
    AlignUpLess(boot.bssEnd - boot.textStart, 0);
    hide AlignUp;
  }

  /** The kernel range that is reserved is short of the image by the pages before the text section,
      so it covers the image exactly if the image begins with its text. */
  lemma KernelRangeExact(boot: Boot)
    requires PlainImage(boot)
    ensures boot.KernelLast() == ImageLast(boot) - (boot.textStart - boot.virtualBase) / PAGE_SIZE
    ensures boot.KernelLast() >= ImageLast(boot) <==> boot.textStart == boot.virtualBase
  {
    var k := (boot.textStart - boot.virtualBase) / PAGE_SIZE;
    var x := boot.bssEnd - boot.virtualBase;
    KernelLastIs(boot);
    TextOffset(boot, k);
    AlignUpLess(x, k);
    hide AlignUp, PlainImage;
    hide Boot.KernelLast;
    PagesLess(boot.physicalBase + AlignUp(x), k);
  }

  lemma TextOffset(boot: Boot, k: nat)
    requires PlainImage(boot) && k == (boot.textStart - boot.virtualBase) / PAGE_SIZE
    ensures boot.textStart == boot.virtualBase + k * PAGE_SIZE && boot.bssEnd - boot.virtualBase + PAGE_SIZE < U64
    ensures k == 0 <==> boot.textStart == boot.virtualBase
  {
  }

  /** With a page or more before the text section, as the boot requests take, nothing but the memory map and the
      bitmap keeps the last frame of the image from being free. */
  lemma LastImageFrameNotReserved(regions: seq<Region>, boot: Boot, top: nat, f: Pfn)
    requires PlainImage(boot) && boot.textStart >= boot.virtualBase + PAGE_SIZE
    requires top < BITMAP_PAGES && f == ImageLast(boot) - 1 && f <= top
    ensures !(boot.KernelFirst() <= f < boot.KernelLast())
    ensures f in BootFree(regions, boot, top) <==>
            InRam(regions, f) && !(boot.BitmapFirst() <= f < boot.BitmapLast()) && PAGES_BELOW_1MB <= f
  {
    KernelRangeExact(boot);
    hide InRam, PlainImage;
  }
}
