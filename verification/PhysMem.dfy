/** The physical page allocator: a bitmap of used frames, three counters, and the memory itself. */
module PhysMem {
  import opened Machine
  import opened Pte
  import opened PageTree

  const BITMAP_SIZE: nat := 0x10_0000
  const BITMAP_PAGES: nat := 8 * BITMAP_SIZE
  const PAGES_BELOW_1MB: nat := 0x10_0000 / PAGE_SIZE

  /** What the allocator means: contents of memory, free frames, and the highest managed frame. */
  datatype Phys = Phys(mem: Mem, free: set<Pfn>, top: nat)

  ghost predicate IsLowest(s: set<Pfn>, f: Pfn) {
    f in s && forall g :: g in s ==> f <= g
  }

  lemma {:induction false} HasLowest(s: set<Pfn>)
    requires s != {}
    ensures exists f :: IsLowest(s, f)
    decreases |s|
  {
    var f :| f in s;
    var rest := s - {f};
    if rest == {} {
      assert s == {f};
      assert IsLowest(s, f);
    } else {
      assert s == rest + {f};
      HasLowest(rest);
      var g :| IsLowest(rest, g);
      assert IsLowest(s, if g < f then g else f);
    }
  }

  ghost function Lowest(s: set<Pfn>): (f: Pfn)
    requires s != {}
    ensures IsLowest(s, f)
  {
    HasLowest(s);
    var f :| IsLowest(s, f);
    f
  }

  /** Take the lowest free frame, zeroed; frame 0 stands for the null address and means there is none. */
  ghost function Allocated(s: Phys): (Phys, Pfn) {
    if s.free == {} then (s, 0)
    else
      var f := Lowest(s.free);
      (Phys(s.mem[f := ZeroPage()], s.free - {f}, s.top), f)
  }

  /** Give back the page at a physical address, if it is one that the allocator could have handed out. */
  ghost function Released(s: Phys, addr: nat): Phys {
    if addr == 0 || addr % PAGE_SIZE != 0 || addr / PAGE_SIZE > s.top || addr / PAGE_SIZE >= FRAMES then s
    else Phys(s.mem, s.free + {addr / PAGE_SIZE}, s.top)
  }

  /** Write one word of one frame. */
  function Write(m: Mem, t: Pfn, i: nat, e: bv64): Mem
    requires i < ENTRIES
  {
    m[t := m[t][i := e]]
  }

  /** The counters agree, in 64-bit arithmetic. */
  predicate Balanced(used: nat, free: nat, total: nat) {
    used < U64 && (used + free) % U64 == total
  }

  lemma BalancedAtBoot(free: nat, total: nat)
    requires free <= total < U64
    ensures Balanced(total - free, free, total)
  {
  }

  lemma BalancedByAllocate(used: nat, free: nat, total: nat)
    requires Balanced(used, free, total) && free > 0
    ensures Balanced((used + 1) % U64, free - 1, total)
  {
  }

  lemma BalancedByFree(used: nat, free: nat, total: nat)
    requires Balanced(used, free, total)
    ensures Balanced((used + U64 - 1) % U64, free + 1, total)
  {
  }

  // One bit of the map; set means used.
  predicate Bit(b: seq<bv8>, i: nat)
    requires i / 8 < |b|
  {
    b[i / 8] & (1 << (i % 8)) != 0
  }

  /** Binary digit k of n, the lowest one first. */
  function Digit(n: nat, k: nat): nat {
    if k == 0 then n % 2 else Digit(n / 2, k - 1)
  }

  function ByteNumber(b: bv8): nat {
    b as nat
  }

  predicate ByteBit(b: bv8, k: nat)
    requires k < 8
  {
    b & (1 << k) != 0
  }

  function HalfByte(b: bv8): bv8 {
    b >> 1
  }

  lemma HalveByte(b: bv8)
    ensures ByteNumber(HalfByte(b)) == ByteNumber(b) / 2
    ensures ByteBit(b, 0) <==> ByteNumber(b) % 2 == 1
  {
  }

  lemma BitDown(b: bv8, k: nat)
    requires 1 <= k < 8
    ensures ByteBit(b, k) <==> ByteBit(HalfByte(b), k - 1)
  {
  }

  lemma {:induction false} ByteDigit(b: bv8, k: nat)
    requires k < 8
    ensures ByteBit(b, k) <==> Digit(ByteNumber(b), k) == 1
    decreases k
  {
    hide ByteBit, ByteNumber, HalfByte;
    HalveByte(b);
    if k > 0 {
      BitDown(b, k);
      ByteDigit(HalfByte(b), k - 1);
    }
  }

  /** Frame i's bit is digit i mod 8 of byte i / 8. */
  lemma BitNumber(b: seq<bv8>, i: nat)
    requires i / 8 < |b|
    ensures Bit(b, i) <==> Digit(ByteNumber(b[i / 8]), i % 8) == 1
  {
    ByteDigit(b[i / 8], i % 8);
    hide Digit, ByteNumber;
  }

  lemma SetBit(b: bv8, k: nat, j: nat)
    requires k < 8 && j < 8
    ensures (b | (1 << k)) & (1 << j) != 0 <==> j == k || b & (1 << j) != 0
  {
  }

  lemma ClearBit(b: bv8, k: nat, j: nat)
    requires k < 8 && j < 8
    ensures (b & !(1 << k)) & (1 << j) != 0 <==> j != k && b & (1 << j) != 0
  {
  }

  lemma AllSet(j: nat)
    requires j < 8
    ensures (0xff as bv8) & (1 << j) != 0
  {
  }

  lemma SetBitInMap(b: seq<bv8>, c: seq<bv8>, i: nat)
    requires |c| == |b| && i / 8 < |b|
    requires c == b[i / 8 := b[i / 8] | (1 << (i % 8))]
    ensures forall j: nat :: j / 8 < |b| ==> (Bit(c, j) <==> j == i || Bit(b, j))
  {
    forall j: nat | j / 8 < |b| ensures Bit(c, j) <==> j == i || Bit(b, j) {
      if j / 8 == i / 8 {
        SetBit(b[i / 8], i % 8, j % 8);
      }
    }
  }

  lemma ClearBitInMap(b: seq<bv8>, c: seq<bv8>, i: nat)
    requires |c| == |b| && i / 8 < |b|
    requires c == b[i / 8 := b[i / 8] & !(1 << (i % 8))]
    ensures forall j: nat :: j / 8 < |b| ==> (Bit(c, j) <==> j != i && Bit(b, j))
  {
    forall j: nat | j / 8 < |b| ensures Bit(c, j) <==> j != i && Bit(b, j) {
      if j / 8 == i / 8 {
        ClearBit(b[i / 8], i % 8, j % 8);
      }
    }
  }

  ghost function ClearIn(b: seq<bv8>, top: nat): set<Pfn>
    requires |b| == BITMAP_SIZE && top < BITMAP_PAGES
  {
    set f: Pfn | f <= top && !Bit(b, f)
  }

  ghost predicate Between(f: Pfn, first: nat, last: nat) {
    first <= f < last
  }

  ghost function Range(first: nat, last: nat, top: nat): set<Pfn>
  {
    set f: Pfn | f <= top && Between(f, first, last)
  }

  lemma RangeStep(first: nat, i: nat, top: nat)
    requires first <= i
    ensures Range(first, first, top) == {}
    ensures Range(first, i + 1, top) == Range(first, i, top) + One(i, top)
  {
  }

  ghost function One(i: nat, top: nat): set<Pfn> {
    if i <= top && i < FRAMES then {i} else {}
  }

  ghost function Less(f: set<Pfn>, first: nat, last: nat, top: nat): set<Pfn> {
    f - Range(first, last, top)
  }

  ghost function More(f: set<Pfn>, first: nat, last: nat, top: nat): set<Pfn> {
    f + Range(first, last, top)
  }

  lemma MinusStep(f: set<Pfn>, first: nat, i: nat, top: nat)
    requires first <= i
    ensures Less(f, first, first, top) == f
    ensures Less(f, first, i, top) - One(i, top) == Less(f, first, i + 1, top)
  {
    RangeStep(first, i, top);
  }

  lemma PlusStep(f: set<Pfn>, first: nat, i: nat, top: nat)
    requires first <= i
    ensures More(f, first, first, top) == f
    ensures More(f, first, i, top) + One(i, top) == More(f, first, i + 1, top)
  {
    RangeStep(first, i, top);
  }

  // What the loops from first to last leave.
  lemma RangeDone(f: set<Pfn>, first: nat, i: nat, last: nat, top: nat)
    requires i == if first <= last then last else first
    ensures Less(f, first, i, top) == f - Range(first, last, top)
    ensures More(f, first, i, top) == f + Range(first, last, top)
  {
    EmptyRange(first, last, top);
  }

  lemma EmptyRange(first: nat, last: nat, top: nat)
    ensures last < first ==> Range(first, last, top) == Range(first, first, top)
  {
  }

  /** Round up to a page boundary, in 64-bit arithmetic. */
  function AlignUp(x: nat): nat {
    (x + PAGE_SIZE - 1) % U64 / PAGE_SIZE * PAGE_SIZE
  }

  function AlignDown(x: nat): nat {
    x / PAGE_SIZE * PAGE_SIZE
  }

  datatype Kind = Usable | BootloaderReclaimable | OtherKind

  datatype Region = Region(base: nat, length: nat, kind: Kind) {
    function Top(): nat {
      (base + length) % U64
    }

    /** First whole page, and the page after the last whole one. */
    function First(): nat {
      AlignUp(base) / PAGE_SIZE
    }

    function Last(): nat {
      AlignDown(Top()) / PAGE_SIZE
    }

    predicate IsRam() {
      !kind.OtherKind?
    }
  }

  ghost predicate InRam(regions: seq<Region>, f: Pfn) {
    exists i :: 0 <= i < |regions| && regions[i].IsRam() && regions[i].First() <= f < regions[i].Last()
  }

  /** The frames some RAM region wholly covers. */
  ghost function RamFrames(regions: seq<Region>, top: nat): set<Pfn>
    requires top < BITMAP_PAGES
  {
    set f: Pfn | f <= top && InRam(regions, f)
  }

  function HighestAddr(regions: seq<Region>): (a: nat)
    ensures forall i :: 0 <= i < |regions| ==> regions[i].Top() <= a
    ensures a == 0 || exists i :: 0 <= i < |regions| && regions[i].Top() == a
  {
    if regions == [] then 0
    else
      var n := |regions| - 1;
      var a := HighestAddr(regions[..n]);
      if regions[n].Top() > a then regions[n].Top() else a
  }

  function HighestPage(regions: seq<Region>): (p: nat)
    ensures p < BITMAP_PAGES
  {
    var p := HighestAddr(regions) / PAGE_SIZE;
    if p >= BITMAP_PAGES then BITMAP_PAGES - 1 else p
  }

  /** Where the bootloader put the kernel, and where the kernel puts its bitmap. */
  datatype Boot = Boot(physicalBase: nat, virtualBase: nat, textStart: nat, bssEnd: nat, bitmap: nat) {
    function KernelFirst(): nat {
      physicalBase / PAGE_SIZE
    }

    /** The size counts from the text section, the end from the physical base. */
    function KernelLast(): nat {
      (physicalBase + AlignUp((bssEnd - textStart) % U64)) % U64 / PAGE_SIZE
    }

    function BitmapPhys(): nat {
      (bitmap - virtualBase + physicalBase) % U64
    }

    function BitmapFirst(): nat {
      BitmapPhys() / PAGE_SIZE
    }

    function BitmapLast(): nat {
      (BitmapPhys() + BITMAP_SIZE + PAGE_SIZE - 1) % U64 / PAGE_SIZE
    }
  }

  lemma NothingClear(b: seq<bv8>, top: nat)
    requires |b| == BITMAP_SIZE && top < BITMAP_PAGES
    requires forall i :: 0 <= i < |b| ==> b[i] == 0xff
    ensures ClearIn(b, top) == {}
  {
    forall f: Pfn | f <= top ensures Bit(b, f) {
      AllSet(f % 8);
    }
  }

  lemma NoneLeft(b: seq<bv8>, top: nat)
    requires |b| == BITMAP_SIZE && top < BITMAP_PAGES
    requires forall g :: g in ClearIn(b, top) ==> top + 1 <= g
    ensures ClearIn(b, top) == {}
  {
    hide Bit;
  }

  /** The frames free after boot: whole RAM frames less the kernel, the bitmap and the first megabyte. */
  ghost function BootFree(regions: seq<Region>, boot: Boot, top: nat): set<Pfn>
    requires top < BITMAP_PAGES
  {
    RamFrames(regions, top)
    - Range(boot.KernelFirst(), boot.KernelLast(), top)
    - Range(boot.BitmapFirst(), boot.BitmapLast(), top)
    - Range(0, PAGES_BELOW_1MB, top)
  }

  lemma BootFreeIsRam(regions: seq<Region>, boot: Boot, top: nat)
    requires top < BITMAP_PAGES
    ensures |BootFree(regions, boot, top)| <= |RamFrames(regions, top)| < U64
    ensures forall f :: f in BootFree(regions, boot, top) ==> PAGES_BELOW_1MB <= f
  {
    var ram, free := RamFrames(regions, top), BootFree(regions, boot, top);
    assert ram == free + (ram - free);
    AtMost(ram, top + 1);
  }

  lemma {:induction false} AtMost(s: set<Pfn>, n: nat)
    requires forall f :: f in s ==> f < n
    ensures |s| <= n
  {
    if n > 0 {
      if n - 1 < FRAMES {
        AtMost(s - {n - 1}, n - 1);
      } else {
        AtMost(s, n - 1);
      }
    } else {
      assert s == {};
    }
  }

  lemma RamStep(regions: seq<Region>, i: nat, top: nat)
    requires i < |regions| && top < BITMAP_PAGES
    ensures RamFrames([], top) == {}
    ensures var r := regions[i];
      RamFrames(regions[..i + 1], top) == RamFrames(regions[..i], top) +
        if r.IsRam() && AlignUp(r.base) < AlignDown(r.Top()) then Range(r.First(), r.Last(), top) else {}
  {
    var a, b := regions[..i], regions[..i + 1];
    assert b == a + [regions[i]];
    forall f: Pfn
      ensures InRam(b, f) <==> InRam(a, f) || (regions[i].IsRam() && regions[i].First() <= f < regions[i].Last())
    {
      if InRam(a, f) {
        var j :| 0 <= j < |a| && a[j].IsRam() && a[j].First() <= f < a[j].Last();
        assert b[j] == a[j];
      }
      assert b[i] == regions[i];
    }
  }

  class PhysicalMemory {
    const bitmap: array<bv8>
    var highestPage: nat
    var usedPages: nat
    var freePages: nat
    var totalRamPages: nat
    var mem: Mem

    ghost predicate Shape()
      reads this`highestPage
    {
      bitmap.Length == BITMAP_SIZE && highestPage < BITMAP_PAGES
    }

    ghost function Free(): set<Pfn>
      requires Shape()
      reads this`highestPage, bitmap
    {
      ClearIn(bitmap[..], highestPage)
    }

    ghost predicate Valid()
      reads this`highestPage, this`usedPages, this`freePages, this`totalRamPages, bitmap
    {
      && Shape()
      && freePages == |Free()|
      && Balanced(usedPages, freePages, totalRamPages)
      && 0 !in Free()
    }

    ghost function View(): Phys
      requires Shape()
      reads this`highestPage, this`mem, bitmap
    {
      Phys(mem, Free(), highestPage)
    }

    constructor (contents: Mem)
      ensures fresh(bitmap) && Shape() && mem == contents
    {
      bitmap := new bv8[BITMAP_SIZE];
      highestPage, usedPages, freePages, totalRamPages := 0, 0, 0, 0;
      mem := contents;
    }

    predicate InUse(i: nat): (r: bool)
      requires Shape() && i <= highestPage
      reads this`highestPage, bitmap
      ensures r <==> i !in Free()
    {
      bitmap[i / 8] & (1 << (i % 8)) != 0
    }

    method SetUsed(i: nat)
      requires Shape() && i <= highestPage
      modifies bitmap
      ensures Free() == old(Free()) - {i}
    {
      hide Bit;
      ghost var b := bitmap[..];
      bitmap[i / 8] := bitmap[i / 8] | (1 << (i % 8));
      SetBitInMap(b, bitmap[..], i);
    }

    method SetFree(i: nat)
      requires Shape() && i <= highestPage
      modifies bitmap
      ensures Free() == old(Free()) + {i}
    {
      hide Bit;
      ghost var b := bitmap[..];
      bitmap[i / 8] := bitmap[i / 8] & !(1 << (i % 8));
      ClearBitInMap(b, bitmap[..], i);
    }

    // One turn of the release loop.
    method ReleasePage(i: nat)
      requires Shape() && totalRamPages == |Free()|
      modifies bitmap, this`totalRamPages
      ensures Free() == old(Free()) + One(i, highestPage)
      ensures totalRamPages == |Free()|
    {
      hide Bit, ClearIn, InUse;
      if i <= highestPage {
        if InUse(i) {
          SetFree(i);
          totalRamPages := totalRamPages + 1;
        }
      }
    }

    // One turn of the three reserve loops.
    method ReservePage(i: nat)
      requires Shape() && freePages == |Free()|
      modifies bitmap, this`freePages
      ensures Free() == old(Free()) - One(i, highestPage)
      ensures freePages == |Free()|
    {
      hide Bit, ClearIn, InUse;
      if i <= highestPage {
        if !InUse(i) {
          freePages := freePages - 1;
        }
        SetUsed(i);
      }
    }

    /** Mark a range of frames free, counting each one that was not free before. */
    method ReleaseRange(first: nat, last: nat)
      requires Shape() && totalRamPages == |Free()|
      modifies bitmap, this`totalRamPages
      ensures Free() == old(Free()) + Range(first, last, highestPage)
      ensures totalRamPages == |Free()|
    {
      hide *;
      var pageIdx := first;
      PlusStep(Free(), first, first, highestPage);
      while pageIdx < last
        invariant first <= pageIdx <= if first <= last then last else first
        invariant Free() == More(old(Free()), first, pageIdx, highestPage)
        invariant totalRamPages == |Free()|
      {
        PlusStep(old(Free()), first, pageIdx, highestPage);
        ReleasePage(pageIdx);
        pageIdx := pageIdx + 1;
      }
      RangeDone(old(Free()), first, pageIdx, last, highestPage);
    }

    /** Mark a range of frames used, uncounting each one that was free. */
    method ReserveRange(first: nat, last: nat)
      requires Shape() && freePages == |Free()|
      modifies bitmap, this`freePages
      ensures Free() == old(Free()) - Range(first, last, highestPage)
      ensures freePages == |Free()|
    {
      hide *;
      var pageIdx := first;
      MinusStep(Free(), first, first, highestPage);
      while pageIdx < last
        invariant first <= pageIdx <= if first <= last then last else first
        invariant Free() == Less(old(Free()), first, pageIdx, highestPage)
        invariant freePages == |Free()|
      {
        MinusStep(old(Free()), first, pageIdx, highestPage);
        ReservePage(pageIdx);
        pageIdx := pageIdx + 1;
      }
      RangeDone(old(Free()), first, pageIdx, last, highestPage);
    }

    /** Build the bitmap and the counters from the boot memory map. */
    method PmmInit(regions: seq<Region>, boot: Boot)
      requires bitmap.Length == BITMAP_SIZE
      modifies this`highestPage, this`usedPages, this`freePages, this`totalRamPages, bitmap
      ensures Valid() && highestPage == HighestPage(regions)
      ensures Free() == BootFree(regions, boot, highestPage)
      ensures totalRamPages == |RamFrames(regions, highestPage)|
      ensures freePages + usedPages == totalRamPages
    {
      hide Bit, ClearIn, Range, RamFrames, HighestPage, BootFree, Balanced, Free, Valid;
      highestPage := FindHighest(regions);
      FillBitmap();
      CountRam(regions);
      freePages := totalRamPages;
      ReserveBoot(regions, boot);
      BootFreeIsRam(regions, boot, highestPage);
      BalancedAtBoot(freePages, totalRamPages);
      usedPages := totalRamPages - freePages;
      BootValid(regions, boot);
    }

    lemma BootValid(regions: seq<Region>, boot: Boot)
      requires Shape() && Free() == BootFree(regions, boot, highestPage)
      requires freePages == |Free()| && Balanced(usedPages, freePages, totalRamPages)
      ensures Valid()
    {
      hide Balanced, BootFree, Free;
      BootFreeIsRam(regions, boot, highestPage);
    }

    // The three reserve loops: kernel image, bitmap, first megabyte.
    method ReserveBoot(regions: seq<Region>, boot: Boot)
      requires Shape() && Free() == RamFrames(regions, highestPage) && freePages == |Free()|
      modifies bitmap, this`freePages
      ensures Free() == BootFree(regions, boot, highestPage)
      ensures freePages == |Free()|
    {
      hide Bit, ClearIn, Range, RamFrames;
      ReserveRange(boot.KernelFirst(), boot.KernelLast());
      ReserveRange(boot.BitmapFirst(), boot.BitmapLast());
      ReserveRange(0, PAGES_BELOW_1MB);
    }

    method FillBitmap()
      requires Shape()
      modifies bitmap
      ensures Free() == {}
    {
      forall i | 0 <= i < bitmap.Length {
        bitmap[i] := 0xff;
      }
      NothingClear(bitmap[..], highestPage);
    }

    // The first pass over the memory map.
    static method FindHighest(regions: seq<Region>) returns (page: nat)
      ensures page == HighestPage(regions)
    {
      var highestAddr := 0;
      for i := 0 to |regions|
        invariant highestAddr == HighestAddr(regions[..i])
      {
        assert regions[..i + 1][..i] == regions[..i];
        if regions[i].Top() > highestAddr {
          highestAddr := regions[i].Top();
        }
      }
      assert regions[..|regions|] == regions;
      page := highestAddr / PAGE_SIZE;
      if page >= BITMAP_PAGES {
        page := BITMAP_PAGES - 1;
      }
    }

    // The second pass over the memory map.
    method CountRam(regions: seq<Region>)
      requires Shape() && Free() == {}
      modifies bitmap, this`totalRamPages
      ensures Free() == RamFrames(regions, highestPage)
      ensures totalRamPages == |Free()|
    {
      hide Bit, ClearIn, Range;
      totalRamPages := 0;
      for i := 0 to |regions|
        invariant Free() == RamFrames(regions[..i], highestPage)
        invariant totalRamPages == |Free()|
      {
        RamStep(regions, i, highestPage);
        var region := regions[i];
        if region.IsRam() && AlignUp(region.base) < AlignDown(region.Top()) {
          ReleaseRange(region.First(), region.Last());
        }
      }
      assert regions[..|regions|] == regions;
    }

    /** Hand out the lowest free page, cleared. */
    method AllocatePage() returns (f: Pfn)
      requires Valid()
      modifies this`usedPages, this`freePages, this`mem, bitmap
      ensures Valid()
      ensures (View(), f) == Allocated(old(View()))
      ensures f == 0 <==> old(Free()) == {}
      ensures f == 0 ==> Free() == old(Free()) && mem == old(mem)
      ensures f != 0 ==> f in old(Free()) && Free() == old(Free()) - {f} && forall g :: g in old(Free()) ==> f <= g
      ensures f != 0 ==> forall i: nat :: i < 512 ==> mem[f][i] == 0
      ensures forall q: Pfn :: q != f ==> mem[q] == old(mem)[q]
    {
      hide Bit, ClearIn, InUse, Balanced;
      for i := 0 to highestPage + 1
        invariant forall g :: g in Free() ==> i <= g
      {
        if !InUse(i) {
          BalancedByAllocate(usedPages, freePages, totalRamPages);
          SetUsed(i);
          usedPages := (usedPages + 1) % U64;
          freePages := freePages - 1;
          mem := mem[i := ZeroPage()];
          return i;
        }
      }
      NoneLeft(bitmap[..], highestPage);
      return 0;
    }

    /** Take a page back; requests the allocator could not have caused are ignored. */
    method FreePage(addr: nat)
      requires Valid()
      modifies this`usedPages, this`freePages, bitmap
      ensures Valid()
      ensures View() == Released(old(View()), addr)
      ensures Free() == old(Free()) + if addr != 0 && addr % 4096 == 0 && addr / 4096 <= highestPage then {addr / 4096}
                                      else {}
    {
      hide Bit, ClearIn, InUse, Balanced;
      if addr == 0 {
        return;
      }
      if addr % PAGE_SIZE != 0 {
        return;
      }
      var index := addr / PAGE_SIZE;
      if index > highestPage {
        return;
      }
      if !InUse(index) {
        return;
      }
      BalancedByFree(usedPages, freePages, totalRamPages);
      SetFree(index);
      usedPages := (usedPages + U64 - 1) % U64;
      freePages := freePages + 1;
    }

    method IsPageFree(addr: nat) returns (r: bool)
      requires Valid()
      ensures r <==> addr / PAGE_SIZE < FRAMES && addr / PAGE_SIZE in Free()
    {
      var index := addr / PAGE_SIZE;
      if index > highestPage {
        return false;
      }
      r := !InUse(index);
    }
  }
}
