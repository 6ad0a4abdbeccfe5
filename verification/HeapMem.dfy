/** The bytes of the heap, and 64-bit words in them. */
module HeapMem {
  import opened Machine

  const HEAP_START: nat := 0xFFFF_8100_0000_0000
  const INITIAL_HEAP_PAGES: nat := 256
  const HEAP_SIZE: nat := INITIAL_HEAP_PAGES * PAGE_SIZE
  const HEAP_END: nat := HEAP_START + HEAP_SIZE

  type byte = b: nat | b < 256
  type Bytes = m: seq<byte> | |m| == HEAP_SIZE witness seq(HEAP_SIZE, _ => 0)

  /** The value of little-endian bytes. */
  function FromBytes(s: seq<byte>): nat {
    if s == [] then 0 else s[0] + 256 * FromBytes(s[1..])
  }

  /** The low n bytes of v, little-endian. */
  function ToBytes(n: nat, v: nat): (s: seq<byte>)
    ensures |s| == n
  {
    if n == 0 then [] else [v % 256] + ToBytes(n - 1, v / 256)
  }

  predicate FitsIn(n: nat, v: nat) {
    if n == 0 then v == 0 else FitsIn(n - 1, v / 256)
  }

  lemma {:induction false} BytesAndBack(n: nat, v: nat)
    requires FitsIn(n, v)
    ensures FromBytes(ToBytes(n, v)) == v
  {
    if n > 0 {
      BytesAndBack(n - 1, v / 256);
      assert ToBytes(n, v)[1..] == ToBytes(n - 1, v / 256);
    }
  }

  lemma WordFits(v: nat)
    requires v < U64
    ensures FitsIn(8, v)
  {
    assert FitsIn(1, v / 0x100_0000_0000_0000);
    assert FitsIn(2, v / 0x1_0000_0000_0000);
    assert FitsIn(3, v / 0x100_0000_0000);
    assert FitsIn(4, v / 0x1_0000_0000);
    assert FitsIn(5, v / 0x100_0000);
    assert FitsIn(6, v / 0x1_0000);
    assert FitsIn(7, v / 0x100);
  }

  // Room for n bytes at address a.
  predicate Inside(a: nat, n: nat) {
    HEAP_START <= a && a + n <= HEAP_END
  }

  function Slice(m: Bytes, a: nat, n: nat): (s: seq<byte>)
    requires Inside(a, n)
    ensures |s| == n
  {
    m[a - HEAP_START..a - HEAP_START + n]
  }

  lemma SubSlice(m: Bytes, a: nat, n: nat, k: nat, l: nat)
    requires Inside(a, n) && k + l <= n
    ensures Inside(a + k, l) && Slice(m, a + k, l) == Slice(m, a, n)[k..k + l]
  {
    var s, t := Slice(m, a + k, l), Slice(m, a, n)[k..k + l];
    forall i | 0 <= i < l ensures s[i] == t[i] {
    }
  }

  /** The 64-bit word at address a; code reads and writes words only inside the heap. */
  function Word(m: Bytes, a: nat): nat {
    if Inside(a, 8) then FromBytes(Slice(m, a, 8)) else 0
  }

  lemma EightBytes(s: seq<byte>)
    requires |s| == 8
    ensures FromBytes(s) ==
      s[0] as nat + 0x100 * (s[1] as nat) + 0x1_0000 * (s[2] as nat) + 0x100_0000 * (s[3] as nat)
      + 0x1_0000_0000 * (s[4] as nat) + 0x100_0000_0000 * (s[5] as nat)
      + 0x1_0000_0000_0000 * (s[6] as nat) + 0x100_0000_0000_0000 * (s[7] as nat)
  {
    FromNext(s, 0);
    FromNext(s, 1);
    FromNext(s, 2);
    FromNext(s, 3);
    FromNext(s, 4);
    FromNext(s, 5);
    FromNext(s, 6);
    FromNext(s, 7);
    assert s[0..] == s && s[8..] == [];
  }

  lemma FromNext(s: seq<byte>, i: nat)
    requires i < |s|
    ensures FromBytes(s[i..]) == s[i] + 256 * FromBytes(s[i + 1..])
  {
    assert s[i..][0] == s[i] && s[i..][1..] == s[i + 1..];
  }

  /** A word's bytes are in memory with the least significant one first, as the processor stores them. */
  lemma WordBytes(m: Bytes, a: nat)
    requires Inside(a, 8)
    ensures var i := a - HEAP_START;
      Word(m, a) ==
        m[i] as nat + 0x100 * (m[i + 1] as nat) + 0x1_0000 * (m[i + 2] as nat) + 0x100_0000 * (m[i + 3] as nat)
        + 0x1_0000_0000 * (m[i + 4] as nat) + 0x100_0000_0000 * (m[i + 5] as nat)
        + 0x1_0000_0000_0000 * (m[i + 6] as nat) + 0x100_0000_0000_0000 * (m[i + 7] as nat)
  {
    EightBytes(Slice(m, a, 8));
    hide FromBytes;
  }

  function WriteBytes(m: Bytes, a: nat, s: seq<byte>): Bytes
    requires Inside(a, |s|)
  {
    m[..a - HEAP_START] + s + m[a - HEAP_START + |s|..]
  }

  function WriteWord(m: Bytes, a: nat, v: nat): Bytes {
    if Inside(a, 8) then WriteBytes(m, a, ToBytes(8, v)) else m
  }

  lemma ReadBack(m: Bytes, a: nat, v: nat)
    requires Inside(a, 8) && v < U64
    ensures Word(WriteWord(m, a, v), a) == v
  {
    WordFits(v);
    BytesAndBack(8, v);
    assert Slice(WriteWord(m, a, v), a, 8) == ToBytes(8, v);
  }

  lemma WriteElsewhere(m: Bytes, a: nat, s: seq<byte>, b: nat, n: nat)
    requires Inside(a, |s|) && Inside(b, n)
    requires b + n <= a || a + |s| <= b
    ensures Slice(WriteBytes(m, a, s), b, n) == Slice(m, b, n)
  {
  }

  /** A word write changes no word and no stretch of bytes it does not overlap. */
  lemma WordElsewhere(m: Bytes, a: nat, v: nat, b: nat, n: nat)
    requires Inside(a, 8) && Inside(b, n)
    requires b + n <= a || a + 8 <= b
    ensures Slice(WriteWord(m, a, v), b, n) == Slice(m, b, n)
    ensures n == 8 ==> Word(WriteWord(m, a, v), b) == Word(m, b)
  {
    WriteElsewhere(m, a, ToBytes(8, v), b, n);
  }

  lemma {:induction false} ValueAndBack(s: seq<byte>)
    ensures ToBytes(|s|, FromBytes(s)) == s
  {
    if s != [] {
      ValueAndBack(s[1..]);
      assert FromBytes(s) % 256 == s[0] && FromBytes(s) / 256 == FromBytes(s[1..]);
      assert s == [s[0]] + s[1..];
    }
  }

  /** Writing back the word that is there changes nothing. */
  lemma RewriteWord(m: Bytes, a: nat)
    requires Inside(a, 8)
    ensures WriteWord(m, a, Word(m, a)) == m
  {
    ValueAndBack(Slice(m, a, 8));
    hide ToBytes, FromBytes;
    SameSlice(m, a, 8);
  }

  lemma SameSlice(m: Bytes, a: nat, n: nat)
    requires Inside(a, n)
    ensures WriteBytes(m, a, Slice(m, a, n)) == m
  {
    var o := WriteBytes(m, a, Slice(m, a, n));
    forall k | 0 <= k < HEAP_SIZE ensures o[k] == m[k] {
    }
  }

  // One byte after a word was written.
  lemma ByteAfter(m: Bytes, a: nat, v: nat, k: nat)
    requires Inside(a, 8) && k < HEAP_SIZE
    ensures WriteWord(m, a, v)[k] ==
      if a - HEAP_START <= k < a - HEAP_START + 8 then ToBytes(8, v)[k - (a - HEAP_START)] else m[k]
  {
    hide ToBytes;
  }

  lemma WritesCommute(m: Bytes, a: nat, v: nat, b: nat, w: nat)
    requires Inside(a, 8) && Inside(b, 8) && (a + 8 <= b || b + 8 <= a)
    ensures WriteWord(WriteWord(m, a, v), b, w) == WriteWord(WriteWord(m, b, w), a, v)
  {
    hide ToBytes, WriteWord;
    var x, y := WriteWord(m, a, v), WriteWord(m, b, w);
    var n, o := WriteWord(x, b, w), WriteWord(y, a, v);
    forall k | 0 <= k < HEAP_SIZE ensures n[k] == o[k] {
      ByteAfter(m, a, v, k);
      ByteAfter(m, b, w, k);
      ByteAfter(x, b, w, k);
      ByteAfter(y, a, v, k);
    }
  }
}
