/** Page-table words: the bit layout of an x86_64 page-table entry and of a 48-bit virtual address. */
module Pte {
  // Page frames that the 40 address bits of an entry can name.
  const FRAMES: nat := 0x100_0000_0000
  // Physical frame numbers.
  type Pfn = f: nat | f < FRAMES
  const ENTRIES: nat := 512

  const PRESENT: bv64 := 1
  const WRITABLE: bv64 := 2
  const USER: bv64 := 4
  const NX: bv64 := 0x8000_0000_0000_0000
  const ADDR_MASK: bv64 := 0x000f_ffff_ffff_f000
  const LOW_FLAGS: bv64 := 0xfff

  predicate Present(e: bv64) {
    e & PRESENT != 0
  }

  function FrameBits(e: bv64): bv40 {
    ((e & ADDR_MASK) >> 12) as bv40
  }

  function AddrBits(b: bv40): bv64 {
    (b as bv64) << 12
  }

  /** The frame an entry points at: its address field divided by the page size. */
  function Frame(e: bv64): Pfn {
    FrameBits(e) as nat
  }

  /** Everything in an entry but its address field. */
  function Flags(e: bv64): bv64 {
    e & !ADDR_MASK
  }

  /** The physical address of a frame, as a word. */
  function Addr(f: Pfn): bv64 {
    AddrBits(f as bv40)
  }

  // Every number below 2^40 is the value of a 40-bit vector, found bit by bit.
  lemma {:induction false} BitsOf(n: nat) returns (b: bv40)
    requires n < FRAMES
    ensures b as nat == n
  {
    if n == 0 {
      b := 0;
    } else {
      var c := BitsOf(n / 2);
      HalfFits(c);
      Doubled(c);
      b := if n % 2 == 0 then c << 1 else (c << 1) | 1;
    }
  }

  lemma HalfFits(b: bv40)
    requires b as nat < 0x80_0000_0000
    ensures b < 0x80_0000_0000
  {
  }

  lemma Doubled(b: bv40)
    requires b < 0x80_0000_0000
    ensures (b << 1) as nat == 2 * (b as nat)
    ensures ((b << 1) | 1) as nat == 2 * (b as nat) + 1
  {
  }

  lemma ToNatAndBack(b: bv40)
    ensures b as nat < FRAMES && b as nat as bv40 == b
  {
  }

  lemma AddressField(b: bv40, flags: bv64)
    requires Flags(flags) == flags
    ensures FrameBits(AddrBits(b) | flags) == b
  {
  }

  lemma FlagField(b: bv40, flags: bv64)
    requires Flags(flags) == flags
    ensures Flags(AddrBits(b) | flags) == flags
  {
  }

  lemma PresentField(b: bv40, flags: bv64)
    ensures Present(AddrBits(b) | flags) <==> Present(flags)
  {
  }

  /** A frame's address joined with flags. */
  function Entry(f: Pfn, flags: bv64): bv64 {
    Addr(f) | flags
  }

  lemma EntryIsJoin(f: Pfn, flags: bv64) returns (b: bv40)
    ensures b as nat == f
    ensures Entry(f, flags) == AddrBits(b) | flags
  {
    b := BitsOf(f);
    ToNatAndBack(b);
  }

  lemma EntryFrame(f: Pfn, flags: bv64)
    requires Flags(flags) == flags
    ensures Frame(Entry(f, flags)) == f
  {
    hide Entry, AddrBits, FrameBits, Flags;
    var b := EntryIsJoin(f, flags);
    AddressField(b, flags);
    assert FrameBits(Entry(f, flags)) == b;
  }

  lemma EntryFlags(f: Pfn, flags: bv64)
    requires Flags(flags) == flags
    ensures Flags(Entry(f, flags)) == flags
    ensures Present(Entry(f, flags)) <==> Present(flags)
  {
    hide Entry, AddrBits, Flags, Present;
    var b := EntryIsJoin(f, flags);
    FlagField(b, flags);
    PresentField(b, flags);
  }

  predicate Writable(e: bv64) {
    e & WRITABLE != 0
  }

  predicate WritableAndExecutable(e: bv64) {
    Writable(e) && e & NX == 0
  }

  predicate OnlyLowFlags(e: bv64) {
    Flags(e) & !LOW_FLAGS == 0
  }
}
