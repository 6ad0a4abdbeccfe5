/** Canonical virtual page addresses as words, and as numbers. */
module VirtAddr {
  import opened Machine
  import opened Words
  import opened VmmMap

  const PAGES: nat := 0x10_0000_0000
  const HALF: nat := 0x8_0000_0000
  const SIGN_BITS: nat := 0xffff_0000_0000_0000

  // Page numbers: bits 12..47 of an address.
  type Vpn = n: nat | n < PAGES

  function Bits(n: Vpn): bv36 {
    n as bv36
  }

  function Ordinal(b: bv36): nat {
    b as nat
  }

  function Wide(b: bv36): bv64 {
    b as bv64
  }

  function ToAddress(w: bv64): bv64 {
    w << 12
  }

  function LowAddress(b: bv36): bv64 {
    ToAddress(Wide(b))
  }

  function HighAddress(b: bv36): bv64 {
    LowAddress(b) | 0xffff_0000_0000_0000
  }

  predicate Negative(b: bv36) {
    b & 0x8_0000_0000 != 0
  }

  /** Bit 47 of the address is repeated in all bits above it. */
  function SignExtend(b: bv36): bv64 {
    if Negative(b) then HighAddress(b) else LowAddress(b)
  }

  /** The canonical address of page n, as a word. */
  function Virt(n: Vpn): bv64 {
    SignExtend(Bits(n))
  }

  /** The same as a number. */
  function Canonical(n: Vpn): nat {
    if n < HALF then n * PAGE_SIZE else SIGN_BITS + n * PAGE_SIZE
  }

  lemma {:induction false} BitsExist(n: nat) returns (b: bv36)
    requires n < PAGES
    ensures b as nat == n
  {
    if n == 0 {
      b := 0;
    } else {
      var c := BitsExist(n / 2);
      HalfFits36(c);
      Doubled36(c);
      b := if n % 2 == 0 then c << 1 else (c << 1) | 1;
    }
  }

  lemma HalfFits36(b: bv36)
    requires b as nat < HALF
    ensures b < 0x8_0000_0000
  {
  }

  lemma Doubled36(b: bv36)
    requires b < 0x8_0000_0000
    ensures (b << 1) as nat == 2 * (b as nat)
    ensures ((b << 1) | 1) as nat == 2 * (b as nat) + 1
  {
  }

  lemma NumberFits(b: bv36)
    ensures Ordinal(b) < PAGES && Bits(Ordinal(b)) == b
  {
  }

  lemma BitsNumber(n: Vpn)
    ensures Ordinal(Bits(n)) == n
  {
    var b := BitsExist(n);
    NumberFits(b);
    assert Ordinal(b) == n;
    hide Bits, Ordinal;
  }

  lemma TopBit(b: bv36)
    ensures Negative(b) <==> b >= 0x8_0000_0000
  {
  }

  lemma LowerHalf(b: bv36)
    requires b < 0x8_0000_0000
    ensures b as nat < HALF
  {
    Doubled36(b);
    assert (b << 1) as nat < PAGES;
  }

  lemma UpperHalf(b: bv36)
    ensures Negative(b) <==> Ordinal(b) >= HALF
  {
    TopBit(b);
    hide Negative;
    if b as nat < HALF {
      HalfFits36(b);
    } else if b < 0x8_0000_0000 {
      LowerHalf(b);
    }
  }

  lemma ShiftedParts(b: bv64)
    requires b <= 0xf_ffff_ffff
    ensures Apart(ToAddress(b), 0xfff) && RightTwelve(ToAddress(b)) == b
  {
  }

  lemma ShiftedValue(b: bv64)
    requires b <= 0xf_ffff_ffff
    ensures Number(ToAddress(b)) == PAGE_SIZE * Number(b)
  {
    hide Number, ToAddress, Apart, RightTwelve;
    ShiftedParts(b);
    ClearTwelve(ToAddress(b));
    TwelveRight(ToAddress(b));
  }

  lemma HighBits(w: bv64)
    requires w <= 0xffff_ffff_ffff
    ensures (w | 0xffff_0000_0000_0000) as nat == w as nat + SIGN_BITS
  {
  }

  lemma Widened(b: bv36)
    ensures Number(Wide(b)) == Ordinal(b) && Wide(b) <= 0xf_ffff_ffff && LowAddress(b) <= 0xffff_ffff_ffff
  {
  }

  lemma LowValue(b: bv36)
    ensures Number(LowAddress(b)) == PAGE_SIZE * Ordinal(b)
  {
    Widened(b);
    ShiftedValue(Wide(b));
    hide Wide, Ordinal, Number, ToAddress;
  }

  lemma HighValue(b: bv36)
    ensures Number(HighAddress(b)) == Number(LowAddress(b)) + SIGN_BITS
  {
    Widened(b);
    HighBits(LowAddress(b));
    hide Wide, Ordinal, LowAddress;
  }

  /** The word is the number's. */
  lemma VirtIsCanonical(n: Vpn)
    ensures Number(Virt(n)) == Canonical(n)
  {
    hide LowAddress, HighAddress, Negative, Bits, Ordinal, Number;
    BitsNumber(n);
    LowValue(Bits(n));
    HighValue(Bits(n));
    UpperHalf(Bits(n));
  }

  lemma MiddleBits(b: bv36)
    ensures PageOf(LowAddress(b)) == Wide(b)
    ensures PageOf(HighAddress(b)) == Wide(b)
  {
  }

  lemma PageOfSignExtend(b: bv36)
    ensures PageOf(SignExtend(b)) == Wide(b)
  {
    MiddleBits(b);
    hide LowAddress, HighAddress, Negative, PageOf, Wide;
  }

  lemma WideInjective(b: bv36, c: bv36)
    requires Wide(b) == Wide(c)
    ensures b == c
  {
  }

  /** Different pages take different paths through the tables. */
  lemma PathsDiffer(n: Vpn, m: Vpn)
    ensures PathOf(Virt(n)) == PathOf(Virt(m)) <==> n == m
  {
    hide SignExtend, PathOf, PageOf, Wide, Bits, Ordinal;
    PageOfSignExtend(Bits(n));
    PageOfSignExtend(Bits(m));
    PathIsPage(Virt(n), Virt(m));
    if Wide(Bits(n)) == Wide(Bits(m)) {
      WideInjective(Bits(n), Bits(m));
    }
    BitsNumber(n);
    BitsNumber(m);
  }

  lemma Narrow(x: bv64) returns (b: bv36)
    requires x <= 0xf_ffff_ffff
    ensures Wide(b) == x
  {
    b := x as bv36;
  }

  lemma PageInRange(va: bv64)
    ensures PageOf(va) <= 0xf_ffff_ffff
  {
  }

  /** Every address lies in some page. */
  lemma PageNumber(va: bv64) returns (n: Vpn)
    ensures PathOf(Virt(n)) == PathOf(va)
  {
    hide SignExtend, PathOf, PageOf, Wide, Bits, Ordinal;
    PageInRange(va);
    var b := Narrow(PageOf(va));
    NumberFits(b);
    n := Ordinal(b);
    PageOfSignExtend(b);
    PathIsPage(Virt(n), va);
  }
}
