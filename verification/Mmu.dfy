/** What the processor makes of page tables in memory, on plain numbers: four-level paging. */
module Mmu {
  import opened Words
  import opened Pte
  import opened PageTree

  /** Nine bits of address v choose the entry at each level: bits 39 to 47 in the root, then 30, 21 and 12 onwards. */
  function Index(v: nat, level: nat): (i: nat)
    ensures i < 512
  {
    if level == 4 then v / 0x80_0000_0000 % 512
    else if level == 3 then v / 0x4000_0000 % 512
    else if level == 2 then v / 0x20_0000 % 512
    else v / 0x1000 % 512
  }

  /** Bit 0 of an entry says that it is present. */
  predicate IsPresent(w: nat) {
    w % 2 == 1
  }

  predicate IsWritable(w: nat) {
    w / 2 % 2 == 1
  }

  predicate IsUser(w: nat) {
    w / 4 % 2 == 1
  }

  /** Bit 63 forbids execution. */
  predicate IsNoExecute(w: nat) {
    w / 0x8000_0000_0000_0000 % 2 == 1
  }

  /** Bits 12 to 51 name the frame. */
  function PointsTo(w: nat): (f: nat)
    ensures f < 0x100_0000_0000
  {
    w / 0x1000 % 0x100_0000_0000
  }

  /** The entry at level l that v's walk meets, starting in the table t of the given level; 0 if it does not get
      there. */
  function EntryAt(m: Mem, t: Pfn, level: nat, v: nat, l: nat): nat
    requires 1 <= l <= level <= 4
    decreases level
  {
    var w := Number(m[t][Index(v, level)]);
    if level == l then w
    else if IsPresent(w) then EntryAt(m, PointsTo(w), level - 1, v, l)
    else 0
  }

  datatype Finding = Fault | Leaf(word: nat)

  /** The entry of the last table that v's walk leads to, if all four steps find one present. */
  function LookUp(m: Mem, root: Pfn, v: nat): Finding {
    var w := EntryAt(m, root, 4, v, 1);
    if IsPresent(w) then Leaf(w) else Fault
  }

  /** The physical address of v, or all ones. */
  function Translate(m: Mem, root: Pfn, v: nat): nat {
    var r := LookUp(m, root, v);
    if r.Leaf? then PointsTo(r.word) * 0x1000 + v % 0x1000 else 0xffff_ffff_ffff_ffff
  }

  /** Flags for an entry leave its address bits alone. */
  predicate PlainFlags(flags: nat) {
    PointsTo(flags) == 0
  }

  /** The entry that maps a page at physical address pa: its page, the flags, and the present bit if they lack it. */
  function LeafWord(pa: nat, flags: nat): nat {
    pa - pa % 0x1000 + flags + if IsPresent(flags) then 0 else 1
  }

  /** Same page, as far as translation can tell. */
  predicate SamePage(v: nat, x: nat) {
    v / 0x1000 % 0x10_0000_0000 == x / 0x1000 % 0x10_0000_0000
  }

  // One nine-bit digit after the other.
  lemma Quotients(v: nat)
    ensures v / 0x20_0000 == v / 0x1000 / 512 && v / 0x4000_0000 == v / 0x20_0000 / 512
    ensures v / 0x80_0000_0000 == v / 0x4000_0000 / 512
  {
  }

  lemma Digits(a: nat, b: nat, c: nat, d: nat)
    requires b == a / 512 && c == b / 512 && d == c / 512
    ensures a % 0x10_0000_0000 == a % 512 + 512 * (b % 512) + 0x4_0000 * (c % 512) + 0x800_0000 * (d % 512)
  {
    var s := a % 512 + 512 * (b % 512) + 0x4_0000 * (c % 512) + 0x800_0000 * (d % 512);
    Remainder(a, d / 512, s);
  }

  lemma Remainder(a: nat, q: nat, s: nat)
    requires a == 0x10_0000_0000 * q + s && s < 0x10_0000_0000
    ensures a % 0x10_0000_0000 == s
  {
  }

  /** The page of v, from its indices. */
  lemma PageOfIndices(v: nat)
    ensures v / 0x1000 % 0x10_0000_0000 ==
      Index(v, 1) + 512 * Index(v, 2) + 0x4_0000 * Index(v, 3) + 0x800_0000 * Index(v, 4)
  {
    Quotients(v);
    Digits(v / 0x1000, v / 0x20_0000, v / 0x4000_0000, v / 0x80_0000_0000);
  }

  lemma DigitsUnique(a: nat, b: nat, c: nat, d: nat, x: nat, y: nat, z: nat, w: nat)
    requires a < 512 && b < 512 && c < 512 && x < 512 && y < 512 && z < 512
    requires a + 512 * b + 0x4_0000 * c + 0x800_0000 * d == x + 512 * y + 0x4_0000 * z + 0x800_0000 * w
    ensures a == x && b == y && c == z && d == w
  {
  }

  lemma SamePageIndices(v: nat, x: nat)
    ensures SamePage(v, x) <==>
      && Index(v, 4) == Index(x, 4) && Index(v, 3) == Index(x, 3)
      && Index(v, 2) == Index(x, 2) && Index(v, 1) == Index(x, 1)
  {
    PageOfIndices(v);
    PageOfIndices(x);
    hide Index;
    if SamePage(v, x) {
      DigitsUnique(Index(v, 1), Index(v, 2), Index(v, 3), Index(v, 4),
                   Index(x, 1), Index(x, 2), Index(x, 3), Index(x, 4));
    }
  }

  lemma PresentNumber(e: bv64)
    ensures Present(e) <==> IsPresent(Number(e))
  {
    PresentIsOdd(e);
    hide Number, Odd;
    Halve(e);
  }

  lemma PresentIsOdd(e: bv64)
    ensures Present(e) <==> Odd(e)
  {
  }

  function Wide(b: bv40): bv64 {
    b as bv64
  }

  lemma WideNumber(b: bv40)
    ensures Number(Wide(b)) == b as nat
  {
  }

  lemma WideFrameBits(e: bv64)
    ensures Wide(FrameBits(e)) == (e & ADDR_MASK) >> 12
  {
  }

  lemma MaskAndShift(e: bv64)
    ensures (e & ADDR_MASK) >> 12 == Low(RightTwelve(e), 0xff_ffff_ffff)
  {
  }

  /** An entry's frame is bits 12 to 51. */
  lemma FrameNumber(e: bv64)
    ensures Frame(e) == PointsTo(Number(e))
  {
    WideNumber(FrameBits(e));
    WideFrameBits(e);
    MaskAndShift(e);
    hide Wide, Low, RightTwelve, Number, FrameBits;
    LowForty(RightTwelve(e));
    TwelveRight(e);
  }

  /** Path p takes the indices of address v. */
  predicate OnPath(p: Path, v: nat) {
    p.pml4 == Index(v, 4) && p.pdpt == Index(v, 3) && p.pd == Index(v, 2) && p.pt == Index(v, 1)
  }

  /** The path of address v. */
  function PathTo(v: nat): (p: Path)
    ensures p.Valid() && OnPath(p, v)
  {
    Path(Index(v, 4), Index(v, 3), Index(v, 2), Index(v, 1))
  }

  lemma OnlyPath(p: Path, v: nat)
    ensures OnPath(p, v) <==> p == PathTo(v)
  {
  }

  /** The walk by paths is the walk by numbers. */
  lemma {:induction false} WalkByNumbers(m: Mem, t: Pfn, k: nat, p: Path, v: nat)
    requires 1 <= k <= 4 && OnPath(p, v)
    ensures p.Valid() && Number(Walk(m, t, k, p)) == EntryAt(m, t, k, v, 1)
    decreases k
  {
    hide Present, Frame, Index, IsPresent, PointsTo;
    assert p.At(k) == Index(v, k);
    var e := m[t][p.At(k)];
    PresentNumber(e);
    FrameNumber(e);
    hide Number;
    ZeroNumber();
    if k > 1 && Present(e) {
      WalkByNumbers(m, Frame(e), k - 1, p, v);
    }
  }

  lemma ZeroNumber()
    ensures Number(0) == 0
  {
  }
}
