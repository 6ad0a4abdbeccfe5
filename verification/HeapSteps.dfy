/** The writes of kmalloc and kfree, each taken as one step from a valid heap to the next. */
module HeapSteps {
  import opened HeapMem
  import opened HeapSpec
  import opened HeapBlocks

  /** Every live block's first word is its size. */
  ghost predicate Headers(m: Bytes, live: Live) {
    forall a :: a in live ==> Block(a, live[a]).Sound() && Word(m, a) == live[a]
  }

  /** The heap in memory m is the partition given by fl and live. */
  ghost predicate HeapIs(m: Bytes, head: nat, fl: seq<Block>, live: Live) {
    Partition(fl, live) && Linked(m, head, fl) && Headers(m, live)
  }

  lemma GappedIsOrdered(fl: seq<Block>)
    requires Gapped(fl)
    ensures Ordered(fl)
  {
  }

  lemma Widen(m: Bytes, n: Bytes, fl: seq<Block>, gl: seq<Block>)
    requires SameOutside(m, n, fl) && forall x :: InFree(fl, x) ==> InFree(gl, x)
    ensures SameOutside(m, n, gl)
  {
    hide InFree;
  }

  /** Bytes in no free block keep their values, so a block apart from them keeps all of its bytes. */
  lemma BlockKept(m: Bytes, n: Bytes, fl: seq<Block>, a: nat, size: nat)
    requires SameOutside(m, n, fl) && Inside(a, size) && forall x :: a <= x < a + size ==> !InFree(fl, x)
    ensures Slice(n, a, size) == Slice(m, a, size)
  {
    hide InFree;
    forall k | 0 <= k < size ensures Slice(n, a, size)[k] == Slice(m, a, size)[k] {
      assert !InFree(fl, a + k);
      assert n[a + k - HEAP_START] == m[a + k - HEAP_START];
    }
  }

  lemma LiveNotFree(fl: seq<Block>, live: Live, a: nat)
    requires Partition(fl, live) && a in live
    ensures Block(a, live[a]).Sound() && forall x :: a <= x < a + live[a] ==> !InFree(fl, x)
  {
    forall x | a <= x < a + live[a] ensures !InFree(fl, x) {
      assert Block(a, live[a]).Has(x) && InLive(live, x);
    }
  }

  /** Writes within free blocks leave all bytes of all live blocks alone. */
  lemma LiveKept(m: Bytes, n: Bytes, fl: seq<Block>, live: Live, a: nat)
    requires Partition(fl, live) && SameOutside(m, n, fl) && a in live
    ensures Inside(a, live[a]) && Slice(n, a, live[a]) == Slice(m, a, live[a]) && Word(n, a) == Word(m, a)
  {
    LiveNotFree(fl, live, a);
    hide Partition, InFree, SameOutside, FromBytes;
    BlockKept(m, n, fl, a, live[a]);
    SubSlice(n, a, live[a], 0, 8);
    SubSlice(m, a, live[a], 0, 8);
  }

  lemma HeadersKept(m: Bytes, n: Bytes, fl: seq<Block>, live: Live)
    requires Partition(fl, live) && SameOutside(m, n, fl) && Headers(m, live)
    ensures Headers(n, live)
  {
    hide Partition, SameOutside, Word;
    forall a | a in live ensures Word(n, a) == live[a] {
      LiveKept(m, n, fl, live, a);
    }
  }

  lemma HeadersAdd(m: Bytes, live: Live, a: nat, n: nat)
    requires Headers(m, live) && Block(a, n).Sound() && Word(m, a) == n
    ensures Headers(m, live[a := n])
  {
    hide Word;
  }

  /** The memory after block i has been cut to its first n bytes and the rest relinked in its place. */
  ghost function SplitMem(m: Bytes, fl: seq<Block>, i: nat, n: nat): Bytes
    requires Gapped(fl) && i < |fl| && n % HEAP_ALIGNMENT == 0 && MIN_ALLOC_SIZE <= n
      && n + MIN_ALLOC_SIZE <= fl[i].size
  {
    TakenGapped(fl, i, n);
    assert fl[i].Sound();
    WriteWord(LinkIn(m, Remove(fl, i), i, Block(fl[i].addr + n, fl[i].size - n)), fl[i].addr, n)
  }

  // The taken part of block i is apart from the blocks that remain free.
  lemma HeadApart(fl: seq<Block>, i: nat, n: nat)
    requires Gapped(fl) && i < |fl| && MIN_ALLOC_SIZE <= n && n + MIN_ALLOC_SIZE <= fl[i].size
    ensures forall k :: 0 <= k < |Taken(fl, i, n)| ==>
      fl[i].addr + 8 <= Taken(fl, i, n)[k].addr || Taken(fl, i, n)[k].End() <= fl[i].addr
  {
    var l := Taken(fl, i, n);
    var b := Block(fl[i].addr + n, fl[i].size - n);
    TakenBlock(fl, i, b, i);
    assert fl[i].Sound();
    hide Taken;
    forall k | 0 <= k < |l| ensures fl[i].addr + 8 <= l[k].addr || l[k].End() <= fl[i].addr {
      TakenIs(fl, i, n, k);
    }
  }

  lemma TakenIs(fl: seq<Block>, i: nat, n: nat, k: nat)
    requires i < |fl| && n + MIN_ALLOC_SIZE <= fl[i].size && k < |Taken(fl, i, n)|
    ensures k < |fl| && Taken(fl, i, n)[k] == if k == i then Block(fl[i].addr + n, fl[i].size - n) else fl[k]
  {
    TakenBlock(fl, i, Block(fl[i].addr + n, fl[i].size - n), i);
    TakenBlock(fl, i, Block(fl[i].addr + n, fl[i].size - n), k);
  }

  lemma SplitLinks(m: Bytes, head: nat, fl: seq<Block>, i: nat, n: nat)
    requires Gapped(fl) && i < |fl| && n % HEAP_ALIGNMENT == 0 && MIN_ALLOC_SIZE <= n
      && n + MIN_ALLOC_SIZE <= fl[i].size
    requires Linked(m, head, fl)
    ensures Linked(SplitMem(m, fl, i, n), if i == 0 then fl[i].addr + n else head, Taken(fl, i, n))
    ensures Word(SplitMem(m, fl, i, n), fl[i].addr) == n
    ensures SameOutside(m, SplitMem(m, fl, i, n), fl)
  {
    hide Gapped, Ordered, Remove, InsertAt, LinkIn, WriteWord, Word, InFree, Linked, LinkedBut, SameOutside;
    var r, b := Remove(fl, i), Block(fl[i].addr + n, fl[i].size - n);
    var l := Taken(fl, i, n);
    TakenGapped(fl, i, n);
    GappedIsOrdered(l);
    GappedIsOrdered(fl);
    SoundAt(fl, i);
    RemoveLength(fl, i);
    RemoveLeavesGap(m, head, fl, i);
    LinkInLinks(m, head, r, i, b);
    var m1 := LinkIn(m, r, i, b);
    HeadApart(fl, i, n);
    WriteApart(m1, if i == 0 then fl[i].addr + n else head, l, fl[i].addr, n);
    ReadBack(m1, fl[i].addr, n);
    SplitWithin(m, m1, fl, i, n);
  }

  lemma SplitWithin(m: Bytes, m1: Bytes, fl: seq<Block>, i: nat, n: nat)
    requires Gapped(fl) && i < |fl| && n % HEAP_ALIGNMENT == 0 && MIN_ALLOC_SIZE <= n <= fl[i].size
    requires SameOutside(m, m1, Taken(fl, i, n)) && fl[i].Sound()
    ensures SameOutside(m, WriteWord(m1, fl[i].addr, n), fl)
  {
    hide Taken, WriteWord;
    forall x | InFree(Taken(fl, i, n), x) ensures InFree(fl, x) {
      TakenCovers(fl, i, n, x);
    }
    Widen(m, m1, Taken(fl, i, n), fl);
    WordInBlock(m1, fl[i].addr, n, fl, i);
    SameOutsideTrans(m, m1, WriteWord(m1, fl[i].addr, n), fl);
  }

  lemma UnlinkLinks(m: Bytes, head: nat, fl: seq<Block>, i: nat)
    requires Gapped(fl) && i < |fl| && Linked(m, head, fl)
    ensures Gapped(Remove(fl, i)) && |Remove(fl, i)| == |fl| - 1
    ensures Linked(Close(m, Remove(fl, i), i), if i == 0 then AddrAt(fl, 1) else head, Remove(fl, i))
    ensures SameOutside(m, Close(m, Remove(fl, i), i), fl)
  {
    var r := Remove(fl, i);
    RemoveOrdered(fl, i);
    GappedIsOrdered(fl);
    GappedIsOrdered(r);
    RemoveLength(fl, i);
    RemoveLeavesGap(m, head, fl, i);
    CloseLinks(m, head, r, i);
    if i == 0 && |r| > 0 {
      RemoveIndex(fl, 0, 0);
    }
    forall x | InFree(r, x) ensures InFree(fl, x) {
      RemoveCovers(fl, i, x);
    }
    hide Remove, Close, InFree, Linked;
    Widen(m, Close(m, r, i), r, fl);
  }

  /** What a free-list node holds, for the code that follows its pointers. */
  lemma ReadNode(m: Bytes, head: nat, fl: seq<Block>, i: nat)
    requires Linked(m, head, fl) && i < |fl|
    ensures fl[i].Sound() && fl[i].addr != 0 && Word(m, fl[i].addr) == fl[i].size
      && Word(m, fl[i].addr + 8) == AddrAt(fl, i + 1)
    ensures AddrAt(fl, i + 1) == 0 <==> i + 1 == |fl|
  {
    assert NodeAt(m, fl, i);
    if i + 1 < |fl| {
      assert NodeAt(m, fl, i + 1);
    }
  }

  lemma AfterRemoved(fl: seq<Block>, i: nat)
    requires i < |fl|
    ensures |Remove(fl, i)| == |fl| - 1
    ensures AddrAt(Remove(fl, i), i) == AddrAt(fl, i + 1)
    ensures i > 0 ==> Remove(fl, i)[i - 1] == fl[i - 1]
  {
  }

  /** The address of the block before position i, or the null pointer. */
  function PrevAt(fl: seq<Block>, i: nat): nat
    requires i <= |fl|
  {
    if i == 0 then 0 else fl[i - 1].addr
  }

  // Where a split writes.
  lemma SplitPlaces(fl: seq<Block>, i: nat, n: nat)
    requires Gapped(fl) && i < |fl| && MIN_ALLOC_SIZE <= n && n + MIN_ALLOC_SIZE <= fl[i].size
    ensures var curr, block := fl[i].addr, fl[i].addr + n;
      && curr + 16 <= block && Inside(curr, 8) && Inside(curr + 8, 8) && Inside(block, 8) && Inside(block + 8, 8)
      && (i > 0 ==> fl[i - 1].addr != 0 && Inside(fl[i - 1].addr + 8, 8) && fl[i - 1].addr + 16 <= curr)
  {
    assert fl[i].Sound();
    if i > 0 {
      assert fl[i - 1].Sound() && fl[i - 1].End() < fl[i].addr;
    }
  }

  /** The writes of a split, in the order the code makes them. */
  lemma CodeSplitIs(m: Bytes, fl: seq<Block>, i: nat, n: nat)
    requires Gapped(fl) && i < |fl| && n % HEAP_ALIGNMENT == 0 && MIN_ALLOC_SIZE <= n
      && n + MIN_ALLOC_SIZE <= fl[i].size
    ensures var curr, block := fl[i].addr, fl[i].addr + n;
      var m3 := WriteWord(WriteWord(WriteWord(m, block, fl[i].size - n), block + 8, AddrAt(fl, i + 1)), curr, n);
      SplitMem(m, fl, i, n) == if i == 0 then m3 else WriteWord(m3, fl[i - 1].addr + 8, block)
  {
    hide Remove, WriteWord, AddrAt, Gapped, Ordered, InsertAt;
    SplitPlaces(fl, i, n);
    AfterRemoved(fl, i);
    if i > 0 {
      var curr, block := fl[i].addr, fl[i].addr + n;
      var m2 := WriteWord(WriteWord(m, block, fl[i].size - n), block + 8, AddrAt(fl, i + 1));
      WritesCommute(m2, curr, n, fl[i - 1].addr + 8, block);
    }
  }

  // The old pointer is still there after the new node's size was written.
  lemma NextStill(m: Bytes, head: nat, fl: seq<Block>, i: nat, n: nat)
    requires Gapped(fl) && i < |fl| && Linked(m, head, fl) && MIN_ALLOC_SIZE <= n && n + MIN_ALLOC_SIZE <= fl[i].size
    ensures Word(m, fl[i].addr) == fl[i].size
    ensures Word(WriteWord(m, fl[i].addr + n, fl[i].size - n), fl[i].addr + 8) == AddrAt(fl, i + 1)
  {
    SplitPlaces(fl, i, n);
    ReadNode(m, head, fl, i);
    hide Word, WriteWord;
    WordElsewhere(m, fl[i].addr + n, fl[i].size - n, fl[i].addr + 8, 8);
  }

  lemma UnlinkCode(m: Bytes, head: nat, fl: seq<Block>, i: nat)
    requires Gapped(fl) && i < |fl| && Linked(m, head, fl)
    ensures fl[i].Sound() && (i > 0 ==> fl[i - 1].Sound()) && Gapped(Remove(fl, i)) && |Remove(fl, i)| == |fl| - 1
    ensures Close(m, Remove(fl, i), i) == if i == 0 then m else WriteWord(m, fl[i - 1].addr + 8, AddrAt(fl, i + 1))
    ensures Word(Close(m, Remove(fl, i), i), fl[i].addr) == fl[i].size
  {
    hide Remove, Word, WriteWord, AddrAt, Linked, Ordered;
    ReadNode(m, head, fl, i);
    AfterRemoved(fl, i);
    RemoveOrdered(fl, i);
    GappedIsOrdered(Remove(fl, i));
    if i > 0 {
      ReadNode(m, head, fl, i - 1);
      assert fl[i - 1].End() < fl[i].addr;
      WordElsewhere(m, fl[i - 1].addr + 8, AddrAt(fl, i + 1), fl[i].addr, 8);
    }
  }

  // Words the code reads when block j absorbs its neighbour.
  lemma NeighbourWords(m: Bytes, head: nat, l: seq<Block>, j: nat)
    requires Ordered(l) && Linked(m, head, l) && j + 1 < |l|
    ensures l[j].Sound() && l[j + 1].Sound()
    ensures Word(m, l[j].addr) == l[j].size && Word(m, l[j + 1].addr) == l[j + 1].size
    ensures Word(WriteWord(m, l[j].addr, l[j].size + l[j + 1].size), l[j + 1].addr + 8) == AddrAt(l, j + 2)
  {
    hide Word, WriteWord, AddrAt, Linked, Ordered;
    ReadNode(m, head, l, j);
    ReadNode(m, head, l, j + 1);
    Apart(l, j, j + 1);
    OtherNode(m, l[j], l[j].addr, l[j].size + l[j + 1].size, l[j + 1]);
  }

  // The words the code writes to link block b in.
  lemma LinkWords(m: Bytes, head: nat, fl: seq<Block>, i: nat, b: Block)
    requires Linked(m, head, fl) && i <= |fl| && Ordered(InsertAt(fl, i, b))
    requires Word(m, b.addr) == b.size && b.Sound()
    ensures i == 0 ==> head == AddrAt(fl, 0)
    ensures i > 0 ==> fl[i - 1].Sound() && fl[i - 1].addr != 0 && Word(m, fl[i - 1].addr + 8) == AddrAt(fl, i)
    ensures var n := WriteWord(m, b.addr + 8, AddrAt(fl, i));
      LinkIn(m, fl, i, b) == if i == 0 then n else WriteWord(n, fl[i - 1].addr + 8, b.addr)
  {
    hide Word, WriteWord, InsertAt, Ordered, AddrAt;
    RewriteWord(m, b.addr);
    if i > 0 {
      ReadNode(m, head, fl, i - 1);
    }
  }

  /** A granted block: lowest run of n bytes that was free, now live. */
  ghost predicate Granted(live: Live, live': Live, ptr: nat, n: nat) {
    && ptr >= 8 && var a := ptr - 8;
    && a !in live && live' == live[a := n]
    && FreeRun(live, a, n) && forall x :: FreeRun(live, x, n) ==> a <= x
  }

  /** Taking block i, the first that fits, grants it. */
  lemma GrantStep(m: Bytes, m': Bytes, head: nat, head': nat, fl: seq<Block>, live: Live, i: nat, n: nat)
    requires HeapIs(m, head, fl, live) && i < |fl| && n % HEAP_ALIGNMENT == 0 && MIN_ALLOC_SIZE <= n <= fl[i].size
    requires forall k :: 0 <= k < i ==> fl[k].size < n
    requires Linked(m', head', Taken(fl, i, n)) && Word(m', fl[i].addr) == n && SameOutside(m, m', fl)
    ensures HeapIs(m', head', Taken(fl, i, n), live[fl[i].addr := n])
    ensures Granted(live, live[fl[i].addr := n], fl[i].addr + 8, n)
  {
    hide Word, Taken, Linked, SameOutside;
    HeadersKept(m, m', fl, live);
    TakenPartition(fl, live, i, n);
    FirstFitIsLowest(fl, live, i, n);
    FirstBytesSound(fl, i, n);
    HeadersAdd(m', live, fl[i].addr, n);
  }

  lemma FirstBytesSound(fl: seq<Block>, i: nat, n: nat)
    requires Gapped(fl) && i < |fl| && n % HEAP_ALIGNMENT == 0 && MIN_ALLOC_SIZE <= n <= fl[i].size
    ensures Block(fl[i].addr, n).Sound()
  {
    assert fl[i].Sound();
  }

  /** Freeing live block a at its place in the list. */
  lemma FreeStep(m: Bytes, m': Bytes, head: nat, head': nat, fl: seq<Block>, live: Live, i: nat, a: nat)
    requires HeapIs(m, head, fl, live) && a in live && i <= |fl|
    requires Between(fl, i, Block(a, live[a]))
    requires Linked(m', head', Freed(fl, i, Block(a, live[a])))
      && SameOutside(m, m', InsertAt(fl, i, Block(a, live[a])))
    ensures HeapIs(m', head', Freed(fl, i, Block(a, live[a])), live - {a})
  {
    hide Word, Freed, Linked, InsertAt;
    var b := Block(a, live[a]);
    FreedPartition(fl, live, i, a);
    forall c | c in live - {a} ensures Block(c, live[c]).Sound() && Word(m', c) == live[c] {
      OthersKept(m, m', fl, live, i, a, c);
    }
  }

  /** Freeing block a leaves every byte of every other live block alone. */
  lemma OthersKept(m: Bytes, m': Bytes, fl: seq<Block>, live: Live, i: nat, a: nat, c: nat)
    requires Partition(fl, live) && a in live && c in live && c != a && i <= |fl|
    requires SameOutside(m, m', InsertAt(fl, i, Block(a, live[a])))
    ensures Inside(c, live[c]) && Slice(m', c, live[c]) == Slice(m, c, live[c]) && Word(m', c) == Word(m, c)
  {
    hide FromBytes, InsertAt, SameOutside;
    var l := InsertAt(fl, i, Block(a, live[a]));
    LiveNotFree(fl, live, c);
    forall x | c <= x < c + live[c] ensures !InFree(l, x) {
      InsertCovers(fl, i, Block(a, live[a]), x);
    }
    hide Partition, InFree;
    BlockKept(m, m', l, c, live[c]);
    SubSlice(m', c, live[c], 0, 8);
    SubSlice(m, c, live[c], 0, 8);
  }

  lemma NodeApart(m: Bytes, p: nat, s: seq<byte>, fl: seq<Block>, k: nat)
    requires Inside(p, |s|) && NodeAt(m, fl, k) && (fl[k].End() <= p || p + |s| <= fl[k].addr)
    ensures NodeAt(WriteBytes(m, p, s), fl, k)
  {
    hide FromBytes, WriteBytes, Slice;
    WriteElsewhere(m, p, s, fl[k].addr, 8);
    WriteElsewhere(m, p, s, fl[k].addr + 8, 8);
  }

  /** Writing in a live block's payload keeps the heap as it is, and every other live block's bytes. */
  lemma PayloadWrite(m: Bytes, head: nat, fl: seq<Block>, live: Live, a: nat, p: nat, s: seq<byte>)
    requires HeapIs(m, head, fl, live) && a in live && a + 8 <= p && p + |s| <= a + live[a]
    ensures Inside(p, |s|) && HeapIs(WriteBytes(m, p, s), head, fl, live)
    ensures forall c :: c in live && c != a ==>
      && Inside(c, live[c])
      && Slice(WriteBytes(m, p, s), c, live[c]) == Slice(m, c, live[c])
  {
    assert Block(a, live[a]).Sound();
    var n := WriteBytes(m, p, s);
    forall k | 0 <= k < |fl| ensures NodeAt(n, fl, k) {
      ApartFromLive(fl, live, k);
      assert NodeAt(m, fl, k);
      NodeApart(m, p, s, fl, k);
    }
    forall c | c in live ensures Block(c, live[c]).Sound() && Word(n, c) == live[c] {
      HeaderApart(m, live, a, p, s, c);
    }
    forall c | c in live && c != a ensures Inside(c, live[c]) && Slice(n, c, live[c]) == Slice(m, c, live[c]) {
      PayloadApart(m, live, a, p, s, c);
    }
  }

  lemma HeaderApart(m: Bytes, live: Live, a: nat, p: nat, s: seq<byte>, c: nat)
    requires LiveSound(live) && Headers(m, live) && a in live && c in live && a + 8 <= p && p + |s| <= a + live[a]
    ensures Inside(p, |s|) && Word(WriteBytes(m, p, s), c) == live[c]
  {
    assert Block(a, live[a]).Sound() && Block(c, live[c]).Sound();
    hide FromBytes, WriteBytes, Slice;
    WriteElsewhere(m, p, s, c, 8);
  }

  lemma PayloadApart(m: Bytes, live: Live, a: nat, p: nat, s: seq<byte>, c: nat)
    requires LiveSound(live) && a in live && c in live && c != a && a + 8 <= p && p + |s| <= a + live[a]
    ensures Inside(p, |s|) && Inside(c, live[c]) && Slice(WriteBytes(m, p, s), c, live[c]) == Slice(m, c, live[c])
  {
    assert Block(a, live[a]).Sound() && Block(c, live[c]).Sound();
    WriteElsewhere(m, p, s, c, live[c]);
  }
}
