/** The kernel heap: a first-fit, address-ordered, coalescing free list kept in the heap's own bytes. */
module Heap {
  import opened Machine
  import opened HeapMem
  import opened HeapSpec
  import opened HeapBlocks
  import opened HeapSteps

  /** The size of the block kmalloc looks for, in 64-bit arithmetic: header added, rounded up to 16. */
  function Rounded(size: nat): (n: nat)
    ensures n % HEAP_ALIGNMENT == 0 && n >= MIN_ALLOC_SIZE
  {
    var n := (size + 8 + HEAP_ALIGNMENT - 1) % U64 / HEAP_ALIGNMENT * HEAP_ALIGNMENT;
    if n < MIN_ALLOC_SIZE then MIN_ALLOC_SIZE else n
  }

  lemma HeadIs(m: Bytes, head: nat, fl: seq<Block>)
    requires Linked(m, head, fl)
    ensures head == AddrAt(fl, 0) && (head == 0 ==> |fl| == 0)
  {
    if |fl| > 0 {
      ReadNode(m, head, fl, 0);
    }
  }

  lemma Unchanged(m: Bytes, fl: seq<Block>)
    ensures SameOutside(m, m, fl)
  {
  }

  lemma PartitionIsGapped(fl: seq<Block>, live: Live)
    requires Partition(fl, live)
    ensures Gapped(fl) && Ordered(fl)
  {
  }

  lemma SomeRun(live: Live, live': Live, ptr: nat, n: nat)
    requires Granted(live, live', ptr, n)
    ensures !forall x :: !FreeRun(live, x, n)
  {
    assert FreeRun(live, ptr - 8, n);
  }

  lemma InsertPlaces(fl: seq<Block>, i: nat, b: Block)
    requires i <= |fl|
    ensures var l := InsertAt(fl, i, b); |l| == |fl| + 1 && l[i] == b && PrevAt(l, i) == PrevAt(fl, i)
  {
  }

  lemma NextPlaces(l: seq<Block>, i: nat)
    requires i < |l| && GappedBut(l, i)
    ensures var r := MergeNextIf(l, i); i < |r| && r[i].addr == l[i].addr && PrevAt(r, i) == PrevAt(l, i) && Ordered(r)
  {
    if i + 1 < |l| && l[i].End() == l[i + 1].addr {
      MergeOrdered(l, i);
    }
  }

  lemma SameCover(l: seq<Block>, r: seq<Block>, i: nat)
    requires i < |l| && r == MergeNextIf(l, i)
    ensures forall x :: InFree(r, x) <==> InFree(l, x)
  {
    hide Merge, InFree;
    if i + 1 < |l| && l[i].End() == l[i + 1].addr {
      forall x ensures InFree(r, x) <==> InFree(l, x) {
        MergeCovers(l, i, x);
      }
    }
  }

  lemma LiveInside(m: Bytes, fl: seq<Block>, live: Live)
    requires Partition(fl, live) && Headers(m, live)
    ensures forall c :: c in live ==>
      && Block(c, live[c]).Sound() && Inside(c, live[c]) && Inside(c, 8)
      && Word(m, c) == live[c]
  {
    hide Word;
  }

  lemma OrderedAddresses(fl: seq<Block>, live: Live)
    requires Partition(fl, live)
    ensures forall j, k :: 0 <= j < k < |fl| ==> fl[j].addr < fl[k].addr
  {
    forall j, k | 0 <= j < k < |fl| ensures fl[j].addr < fl[k].addr {
      assert fl[j].End() < fl[k].addr;
    }
  }

  /** A size_t passed as the int count of memset. */
  function ToInt32(n: nat): (i: int)
    ensures -0x8000_0000 <= i < 0x8000_0000 && (n - i) % 0x1_0000_0000 == 0
  {
    var low := n % 0x1_0000_0000;
    if low < 0x8000_0000 then low else low - 0x1_0000_0000
  }

  /** The block found for a request has room for it exactly if rounding does not wrap around. */
  lemma RoundedRoom(size: nat)
    requires size < U64
    ensures size + 8 <= Rounded(size) <==> size + 23 < U64
    ensures size + 23 < U64 ==> Rounded(size) < size + 24
    ensures size + 23 >= U64 ==> Rounded(size) == MIN_ALLOC_SIZE
  {
  }

  /** The blocks of live have the same bytes, headers included, in both memories. */
  ghost predicate KeepsBlocks(m: Bytes, n: Bytes, live: Live) {
    forall c :: c in live ==> Inside(c, live[c]) && Slice(n, c, live[c]) == Slice(m, c, live[c])
  }

  // A word within a block is determined by the block's bytes.
  lemma WordOfBlock(m: Bytes, n: Bytes, c: nat, size: nat, a: nat)
    requires Inside(c, size) && Slice(n, c, size) == Slice(m, c, size) && c <= a && a + 8 <= c + size
    ensures Inside(a, 8) && Word(n, a) == Word(m, a)
  {
    SubSlice(m, c, size, a - c, 8);
    SubSlice(n, c, size, a - c, 8);
    hide FromBytes, Slice;
  }

  lemma AllKept(m: Bytes, n: Bytes, fl: seq<Block>, live: Live)
    requires Partition(fl, live) && SameOutside(m, n, fl)
    ensures KeepsBlocks(m, n, live)
  {
    hide Partition, SameOutside, Slice, Word;
    forall c | c in live ensures Inside(c, live[c]) && Slice(n, c, live[c]) == Slice(m, c, live[c]) {
      LiveKept(m, n, fl, live, c);
    }
  }

  // Blocks kept by an allocation and then by a write to the new block.
  lemma KeptTwice(m: Bytes, n: Bytes, o: Bytes, live: Live, live': Live, ptr: nat, size: nat)
    requires KeepsBlocks(m, n, live) && Granted(live, live', ptr, size) && KeepsBlocks(n, o, live' - {ptr - 8})
    ensures KeepsBlocks(m, o, live)
  {
    hide Slice, FreeRun;
    forall c | c in live ensures Inside(c, live[c]) && Slice(o, c, live[c]) == Slice(m, c, live[c]) {
      assert c in live' - {ptr - 8};
    }
  }

  lemma WrittenSlice(m: Bytes, p: nat, s: seq<byte>)
    requires Inside(p, |s|)
    ensures Slice(WriteBytes(m, p, s), p, |s|) == s
  {
  }

  /** num * size, computed in 64 bits, passes the division check exactly if it did not overflow. */
  lemma ProductFits(num: nat, size: nat)
    requires num < U64 && size < U64
    ensures var total := num * size % U64;
      (num * size < U64 <==> size == 0 || total / size == num) && (num * size < U64 ==> total == num * size)
  {
    if size != 0 {
      var p := num * size;
      var total := p % U64;
      DivTimes(total, size);
      if p < U64 {
        ExactQuotient(num, total / size, size, total);
      } else {
        assert total <= p - U64;
      }
    }
  }

  lemma DivTimes(a: nat, b: nat)
    requires b > 0
    ensures (a / b) * b <= a < (a / b) * b + b
  {
  }

  lemma MulFar(a: int, size: nat)
    ensures a >= 1 ==> a * size >= size
    ensures a <= -1 ==> a * size <= -(size as int)
  {
  }

  lemma ExactQuotient(k: int, q: int, size: nat, p: nat)
    requires size > 0 && p == k * size && q * size <= p < q * size + size
    ensures q == k
  {
    assert (k - q) * size == p - q * size;
    MulFar(k - q, size);
  }

  // The granted block has room for what memset writes.
  lemma GrantedRoom(m: Bytes, head: nat, fl: seq<Block>, live: Live, live': Live, ptr: nat, total: nat)
    requires HeapIs(m, head, fl, live') && Granted(live, live', ptr, Rounded(total)) && total < U64
    ensures ptr - 8 in live' && live'[ptr - 8] == Rounded(total)
    ensures total + 23 < U64 ==>
      && ToInt32(total) == total && ptr + total <= ptr - 8 + Rounded(total)
      && Inside(ptr, total)
    ensures total + 23 >= U64 ==> ToInt32(total) <= 0
  {
    hide Word, FreeRun, Linked, Partition, Rounded;
    RoundedRoom(total);
    LiveInside(m, fl, live');
    assert ptr - 8 in live' && Block(ptr - 8, live'[ptr - 8]).Sound();
  }

  /** The payload of ptr's block is now at the start of r's, ptr's block is free, and all others are as they were. */
  ghost predicate Moved(m: Bytes, n: Bytes, live: Live, live': Live, ptr: nat, r: nat, size: nat) {
    && ptr >= 8 && ptr - 8 in live && live[ptr - 8] >= 8
    && (exists live1 :: Granted(live, live1, r, Rounded(size)) && live' == live1 - {ptr - 8})
    && KeepsBlocks(m, n, live - {ptr - 8})
    && var k := live[ptr - 8] - 8;
    Inside(ptr, k) && Inside(r, k) && Slice(n, r, k) == Slice(m, ptr, k)
  }

  lemma LivePayload(m: Bytes, head: nat, fl: seq<Block>, live: Live, a: nat)
    requires HeapIs(m, head, fl, live) && a in live
    ensures live[a] >= MIN_ALLOC_SIZE && Inside(a, live[a]) && Inside(a, 8) && Word(m, a) == live[a]
  {
    hide Word;
    LiveInside(m, fl, live);
  }

  // A larger request gets a block other than the old one, with room for the old payload.
  lemma MoveRoom(m: Bytes, n: Bytes, head: nat, fl: seq<Block>, live: Live, live': Live, ptr: nat, r: nat, size: nat,
                 oldSize: nat)
    requires HeapIs(n, head, fl, live') && Granted(live, live', r, Rounded(size)) && KeepsBlocks(m, n, live)
    requires ptr >= 8 && ptr - 8 in live && live[ptr - 8] == oldSize + 8 && oldSize < size && size + 23 < U64
    ensures r - 8 != ptr - 8 && ptr - 8 in live' && r - 8 in live' && live'[r - 8] == Rounded(size)
    ensures Inside(ptr, oldSize) && Slice(n, ptr, oldSize) == Slice(m, ptr, oldSize)
    ensures r + oldSize <= r - 8 + live'[r - 8] && Inside(r, oldSize)
  {
    hide Word, FreeRun, Linked, Partition, Rounded;
    RoundedRoom(size);
    assert r - 8 in live' && ptr - 8 in live';
    LiveInside(n, fl, live');
    SubSlice(n, ptr - 8, oldSize + 8, 8, oldSize);
    SubSlice(m, ptr - 8, oldSize + 8, 8, oldSize);
  }

  lemma MoveDone(m: Bytes, m1: Bytes, m2: Bytes, n: Bytes, live: Live, live1: Live, ptr: nat, r: nat, size: nat,
                 oldSize: nat, payload: seq<byte>)
    requires ptr >= 8 && ptr - 8 in live && live[ptr - 8] == oldSize + 8 && Inside(ptr, oldSize)
      && payload == Slice(m, ptr, oldSize)
    requires Granted(live, live1, r, Rounded(size)) && r - 8 != ptr - 8 && r + oldSize <= r - 8 + live1[r - 8]
    requires KeepsBlocks(m, m1, live) && Inside(r, oldSize) && m2 == WriteBytes(m1, r, payload)
    requires KeepsBlocks(m1, m2, live1 - {r - 8}) && KeepsBlocks(m2, n, live1 - {ptr - 8})
    ensures Moved(m, n, live, live1 - {ptr - 8}, ptr, r, size)
  {
    hide FreeRun, Rounded, Slice, WriteBytes;
    WrittenSlice(m1, r, payload);
    var a, b := ptr - 8, r - 8;
    assert b in live1 - {a} && Inside(b, live1[b]);
    SubSlice(n, b, live1[b], 8, oldSize);
    SubSlice(m2, b, live1[b], 8, oldSize);
    forall c | c in live - {a} ensures Inside(c, live[c]) && Slice(n, c, live[c]) == Slice(m, c, live[c]) {
      assert c in live1 - {b} && c in live1 - {a};
    }
  }

  class KernelHeap {
    var mem: Bytes
    var freeListHead: nat
    // The blocks of the free list, and the blocks callers hold.
    ghost var free: seq<Block>
    ghost var live: Live

    ghost predicate Valid()
      reads this
    {
      HeapIs(mem, freeListHead, free, live)
    }

    /** heap_init, once its pages are mapped: one free block of the whole heap. */
    constructor (contents: Bytes)
      ensures Valid() && live == map[] && free == [Block(0xffff_8100_0000_0000, 0x10_0000)]
    {
      mem := WriteWord(WriteWord(contents, HEAP_START, HEAP_SIZE), HEAP_START + 8, 0);
      freeListHead := HEAP_START;
      free := [Block(HEAP_START, HEAP_SIZE)];
      live := map[];
      new;
      WriteNode(contents, free[0], HEAP_SIZE, 0);
      hide WriteWord, Word;
      assert NodeAt(mem, free, 0);
      WholeHeap(free, live);
    }

    static lemma WholeHeap(fl: seq<Block>, live: Live)
      requires fl == [Block(HEAP_START, HEAP_SIZE)] && live == map[]
      ensures Partition(fl, live)
    {
      forall x | HEAP_START <= x < HEAP_END ensures InFree(fl, x) && !InLive(live, x) {
        assert fl[0].Has(x);
      }
    }

    // Memory is read and written only inside the heap.
    method Load(a: nat) returns (v: nat)
      requires Inside(a, 8)
      ensures v == Word(mem, a)
    {
      v := FromBytes(Slice(mem, a, 8));
    }

    method Store(a: nat, v: nat)
      requires Inside(a, 8)
      modifies this`mem
      ensures mem == WriteWord(old(mem), a, v)
    {
      mem := WriteBytes(mem, a, ToBytes(8, v));
    }

    // Cut or unlink free block i, found at curr after prev, for a request of n bytes.
    method TakeBlock(prev: nat, curr: nat, n: nat, ghost i: nat)
      requires Gapped(free) && Linked(mem, freeListHead, free) && i < |free|
      requires curr == free[i].addr && prev == PrevAt(free, i)
      requires n % HEAP_ALIGNMENT == 0 && MIN_ALLOC_SIZE <= n <= free[i].size
      modifies this`mem, this`freeListHead
      ensures Linked(mem, freeListHead, Taken(free, i, n))
      ensures Word(mem, curr) == n && SameOutside(old(mem), mem, free)
    {
      ReadNode(mem, freeListHead, free, i);
      var size := Load(curr);
      if size - n >= MIN_ALLOC_SIZE {
        Split(prev, curr, n, i);
      } else {
        assert size == n;
        Unlink(prev, curr, i);
      }
      assert Inside(curr, 8);
      hide *;
      RewriteWord(mem, curr);
      var v := Load(curr);
      Store(curr, v);
    }

    method Split(prev: nat, curr: nat, n: nat, ghost i: nat)
      requires Gapped(free) && Linked(mem, freeListHead, free) && i < |free|
      requires curr == free[i].addr && prev == PrevAt(free, i)
      requires n % HEAP_ALIGNMENT == 0 && MIN_ALLOC_SIZE <= n && n + MIN_ALLOC_SIZE <= free[i].size
      modifies this`mem, this`freeListHead
      ensures Linked(mem, freeListHead, Taken(free, i, n))
      ensures Word(mem, curr) == n && SameOutside(old(mem), mem, free)
    {
      hide WriteWord, Word, Linked, Taken, SplitMem, Gapped, Ordered, SameOutside, AddrAt;
      SplitLinks(mem, freeListHead, free, i, n);
      CodeSplitIs(mem, free, i, n);
      NextStill(mem, freeListHead, free, i, n);
      SplitPlaces(free, i, n);
      var block := curr + n;
      var v := Load(curr);
      Store(block, v - n);
      v := Load(curr + 8);
      Store(block + 8, v);
      Store(curr, n);
      if prev == 0 {
        freeListHead := block;
      } else {
        Store(prev + 8, block);
      }
    }

    method Unlink(prev: nat, curr: nat, ghost i: nat)
      requires Gapped(free) && Linked(mem, freeListHead, free) && i < |free|
      requires curr == free[i].addr && prev == PrevAt(free, i)
      modifies this`mem, this`freeListHead
      ensures Linked(mem, freeListHead, Remove(free, i))
      ensures Word(mem, curr) == free[i].size && SameOutside(old(mem), mem, free)
    {
      hide WriteWord, Word, Linked, Remove, Close, Gapped, Ordered, SameOutside, AddrAt;
      ReadNode(mem, freeListHead, free, i);
      UnlinkCode(mem, freeListHead, free, i);
      UnlinkLinks(mem, freeListHead, free, i);
      if prev == 0 {
        freeListHead := Load(curr + 8);
      } else {
        var v := Load(curr + 8);
        Store(prev + 8, v);
      }
    }

    /** Allocate size bytes; the null pointer if there is no room. */
    method Kmalloc(size: nat) returns (ptr: nat)
      requires Valid() && size < U64
      modifies this
      ensures Valid()
      ensures size == 0 ==> ptr == 0
      ensures size != 0 ==> (ptr == 0 <==> forall x :: !FreeRun(old(live), x, Rounded(size)))
      ensures ptr == 0 ==>
        && mem == old(mem) && freeListHead == old(freeListHead) && free == old(free)
        && live == old(live)
      ensures ptr != 0 ==> Granted(old(live), live, ptr, Rounded(size))
      ensures KeepsBlocks(old(mem), mem, old(live))
    {
      hide WriteWord, Word, Partition, Headers, Taken, Granted, SameOutside, FreeRun, Rounded, KeepsBlocks;
      Unchanged(mem, free);
      AllKept(mem, mem, free, live);
      if size == 0 {
        return 0;
      }
      var n := Rounded(size);
      ghost var i := 0;
      var prev, curr := 0, freeListHead;
      HeadIs(mem, freeListHead, free);
      while curr != 0
        invariant mem == old(mem) && freeListHead == old(freeListHead) && free == old(free) && live == old(live)
        invariant i <= |free| && curr == AddrAt(free, i) && prev == PrevAt(free, i)
        invariant curr == 0 ==> i == |free|
        invariant forall k :: 0 <= k < i ==> free[k].size < n
        decreases |free| - i
      {
        ReadNode(mem, freeListHead, free, i);
        var blockSize := Load(curr);
        if blockSize >= n {
          PartitionIsGapped(free, live);
          TakeBlock(prev, curr, n, i);
          GrantStep(old(mem), mem, old(freeListHead), freeListHead, free, live, i, n);
          AllKept(old(mem), mem, free, live);
          free, live := Taken(free, i, n), live[curr := n];
          SomeRun(old(live), live, curr + 8, n);
          return curr + 8;
        }
        prev := curr;
        curr := Load(curr + 8);
        i := i + 1;
      }
      NoFit(free, live, n);
      return 0;
    }

    // Make block a, at position j of list l, swallow block b after it, which it touches.
    method Absorb(a: nat, b: nat, ghost l: seq<Block>, ghost j: nat)
      requires Ordered(l) && Linked(mem, freeListHead, l) && j + 1 < |l|
      requires a == l[j].addr && b == l[j + 1].addr && l[j].End() == b
      modifies this`mem
      ensures Linked(mem, freeListHead, Merge(l, j)) && Ordered(Merge(l, j))
      ensures SameOutside(old(mem), mem, l)
    {
      hide WriteWord, Word, Linked, Ordered, SameOutside, AddrAt, Merge;
      MergeInLinks(mem, freeListHead, l, j);
      NeighbourWords(mem, freeListHead, l, j);
      var size := Load(a);
      var more := Load(b);
      Store(a, size + more);
      var next := Load(b + 8);
      Store(a + 8, next);
    }

    // Write the freed block's node and hang it between its neighbours.
    method Hook(prev: nat, block: nat, size: nat, ghost i: nat)
      requires Linked(mem, freeListHead, free) && i <= |free| && prev == PrevAt(free, i)
      requires Block(block, size).Sound() && Word(mem, block) == size && Ordered(InsertAt(free, i, Block(block, size)))
      modifies this`mem, this`freeListHead
      ensures Linked(mem, freeListHead, InsertAt(free, i, Block(block, size)))
      ensures SameOutside(old(mem), mem, InsertAt(free, i, Block(block, size)))
    {
      hide WriteWord, Word, Linked, Ordered, SameOutside, AddrAt, InsertAt, LinkIn;
      LinkedHasNoGap(mem, freeListHead, free, i);
      LinkInLinks(mem, freeListHead, free, i, Block(block, size));
      LinkWords(mem, freeListHead, free, i, Block(block, size));
      RewriteWord(mem, block);
      Store(block, size);
      if prev == 0 {
        Store(block + 8, freeListHead);
        freeListHead := block;
      } else {
        var next := Load(prev + 8);
        Store(block + 8, next);
        Store(prev + 8, block);
      }
    }

    // Link a freed block in at position i and join it with the neighbours it touches.
    method Relink(prev: nat, block: nat, size: nat, ghost i: nat)
      requires Gapped(free) && Linked(mem, freeListHead, free) && i <= |free| && prev == PrevAt(free, i)
      requires Block(block, size).Sound() && Word(mem, block) == size && Between(free, i, Block(block, size))
      modifies this`mem, this`freeListHead
      ensures Linked(mem, freeListHead, Freed(free, i, Block(block, size)))
      ensures SameOutside(old(mem), mem, InsertAt(free, i, Block(block, size)))
    {
      hide WriteWord, Word, Linked, Ordered, Gapped, SameOutside, AddrAt, InsertAt, InFree, MergeNextIf, MergePrev;
      ghost var b := Block(block, size);
      InsertGapped(free, i, b);
      ghost var l := InsertAt(free, i, b);
      InsertPlaces(free, i, b);
      Hook(prev, block, size, i);
      ghost var m1 := mem;
      JoinNext(block, l, i);
      SameOutsideTrans(old(mem), m1, mem, l);
      MergeNextGapped(l, i);
      ghost var r := MergeNextIf(l, i);
      NextPlaces(l, i);
      SameCover(l, r, i);
      ghost var m := mem;
      JoinPrev(prev, block, r, i);
      Widen(m, mem, r, l);
      SameOutsideTrans(old(mem), m, mem, l);
    }

    method JoinNext(block: nat, ghost l: seq<Block>, ghost i: nat)
      requires Ordered(l) && Linked(mem, freeListHead, l) && i < |l| && block == l[i].addr
      modifies this`mem
      ensures Linked(mem, freeListHead, MergeNextIf(l, i))
      ensures SameOutside(old(mem), mem, l)
    {
      hide WriteWord, Word, Linked, Ordered, SameOutside, Merge;
      ReadNode(mem, freeListHead, l, i);
      Unchanged(mem, l);
      var next := Load(block + 8);
      var size := Load(block);
      if next != 0 && block + size == next {
        Absorb(block, next, l, i);
      }
    }

    method JoinPrev(prev: nat, block: nat, ghost r: seq<Block>, ghost i: nat)
      requires Ordered(r) && Linked(mem, freeListHead, r) && i < |r| && block == r[i].addr && prev == PrevAt(r, i)
      modifies this`mem
      ensures Linked(mem, freeListHead, MergePrev(r, i))
      ensures SameOutside(old(mem), mem, r)
    {
      hide WriteWord, Word, Linked, Ordered, SameOutside, Merge, AddrAt;
      Unchanged(mem, r);
      if i > 0 {
        ReadNode(mem, freeListHead, r, i - 1);
      }
      if prev != 0 {
        var size := Load(prev);
        if prev + size == block {
          Absorb(prev, block, r, i - 1);
        }
      }
    }

    /** Free a block; reports whether the corruption check tripped. */
    method Kfree(ptr: nat) returns (panicked: bool)
      requires Valid() && (ptr == 0 || (ptr >= 8 && ptr - 8 in live))
      modifies this
      ensures Valid() && !panicked
      ensures live == if ptr == 0 then old(live) else old(live) - {ptr - 8}
      ensures ptr == 0 ==> mem == old(mem) && freeListHead == old(freeListHead) && free == old(free)
      ensures KeepsBlocks(old(mem), mem, live)
    {
      hide WriteWord, Word, Partition, SameOutside, Freed, Gapped, Ordered, InsertAt, FromBytes, Between;
      LiveInside(mem, free, live);
      if ptr == 0 {
        return false;
      }
      var block := ptr - 8;
      var size := Load(block);
      if block < HEAP_START || block >= HEAP_END || size < MIN_ALLOC_SIZE || block % HEAP_ALIGNMENT != 0 {
        return true;
      }
      ghost var i := 0;
      var prev, curr := 0, freeListHead;
      HeadIs(mem, freeListHead, free);
      OrderedAddresses(free, live);
      while curr != 0 && curr < block
        invariant mem == old(mem) && freeListHead == old(freeListHead) && free == old(free) && live == old(live)
        invariant i <= |free| && curr == AddrAt(free, i) && prev == PrevAt(free, i)
        invariant curr == 0 ==> i == |free|
        invariant forall k :: 0 <= k < i ==> free[k].addr < block
        decreases |free| - i
      {
        ReadNode(mem, freeListHead, free, i);
        prev := curr;
        curr := Load(curr + 8);
        i := i + 1;
      }
      LivePosition(free, live, i, block);
      PartitionIsGapped(free, live);
      Relink(prev, block, size, i);
      FreeStep(old(mem), mem, old(freeListHead), freeListHead, free, live, i, block);
      forall c | c in live && c != block
        ensures Inside(c, live[c]) && Slice(mem, c, live[c]) == Slice(old(mem), c, live[c])
      {
        OthersKept(old(mem), mem, free, live, i, block, c);
      }
      free, live := Freed(free, i, Block(block, size)), live - {block};
      return false;
    }

    // memset and memcpy into the payload of live block a.
    method Fill(ghost a: nat, p: nat, s: seq<byte>)
      requires Valid() && a in live && a + 8 <= p && p + |s| <= a + live[a]
      modifies this`mem
      ensures Valid() && Inside(p, |s|) && mem == WriteBytes(old(mem), p, s)
      ensures KeepsBlocks(old(mem), mem, live - {a})
    {
      PayloadWrite(mem, freeListHead, free, live, a, p, s);
      hide HeapIs, Slice;
      mem := WriteBytes(mem, p, s);
    }

    /** Allocate num * size zeroed bytes, unless the product overflows. */
    method Kcalloc(num: nat, size: nat) returns (ptr: nat)
      requires Valid() && num < U64 && size < U64
      modifies this
      ensures Valid()
      ensures num * size >= U64 ==> ptr == 0
      ensures num * size < U64 ==>
        (ptr == 0 <==> num * size == 0 || forall x :: !FreeRun(old(live), x, Rounded(num * size)))
      ensures ptr == 0 ==>
        && mem == old(mem) && freeListHead == old(freeListHead) && free == old(free)
        && live == old(live)
      ensures ptr != 0 ==> Granted(old(live), live, ptr, Rounded(num * size))
      ensures ptr != 0 && num * size + 23 < U64 ==>
                Inside(ptr, num * size) && forall k :: 0 <= k < num * size ==> Slice(mem, ptr, num * size)[k] == 0
      ensures KeepsBlocks(old(mem), mem, old(live))
    {
      Unchanged(mem, free);
      AllKept(mem, mem, free, live);
      hide HeapIs, FreeRun, Slice, Granted, Rounded, WriteBytes, KeepsBlocks;
      var total := num * size % U64;
      ProductFits(num, size);
      if size != 0 && total / size != num {
        return 0;
      }
      ptr := Kmalloc(total);
      if ptr != 0 {
        var n := ToInt32(total);
        GrantedRoom(mem, freeListHead, free, old(live), live, ptr, total);
        if n > 0 {
          ghost var m := mem;
          var zeros: seq<byte> := seq(n, _ => 0);
          Fill(ptr - 8, ptr, zeros);
          WrittenSlice(m, ptr, zeros);
          KeptTwice(old(mem), m, mem, old(live), live, ptr, Rounded(total));
        }
      }
    }

    /** Resize: keep the block if it is large enough, else move its payload to a new one; 0 and no change if there is no
        room. */
    method Krealloc(ptr: nat, size: nat) returns (r: nat)
      requires Valid() && size < U64 && (ptr == 0 || (ptr >= 8 && ptr - 8 in live && size + 23 < U64))
      modifies this
      ensures Valid()
      ensures ptr == 0 ==> (r == 0 <==> size == 0 || forall x :: !FreeRun(old(live), x, Rounded(size)))
      ensures ptr == 0 && r != 0 ==> Granted(old(live), live, r, Rounded(size))
      ensures ptr == 0 && r == 0 ==> live == old(live) && mem == old(mem)
      ensures ptr == 0 ==> KeepsBlocks(old(mem), mem, old(live))
      ensures ptr != 0 && size == 0 ==> r == 0 && live == old(live) - {ptr - 8} && KeepsBlocks(old(mem), mem, live)
      ensures ptr != 0 && size != 0 && old(live)[ptr - 8] >= size + 8 ==>
        && r == ptr && live == old(live)
        && mem == old(mem)
      ensures ptr != 0 && size != 0 && old(live)[ptr - 8] < size + 8 && r == 0 ==>
                (forall x :: !FreeRun(old(live), x, Rounded(size))) && live == old(live) && mem == old(mem)
      ensures ptr != 0 && size != 0 && old(live)[ptr - 8] < size + 8 && r != 0 ==>
                Moved(old(mem), mem, old(live), live, ptr, r, size)
    {
      hide HeapIs, FreeRun, Slice, Granted, Rounded, WriteBytes, KeepsBlocks, Moved, Headers;
      if ptr == 0 {
        r := Kmalloc(size);
        return;
      }
      if size == 0 {
        var _ := Kfree(ptr);
        return 0;
      }
      LivePayload(mem, freeListHead, free, live, ptr - 8);
      var blockSize := Load(ptr - 8);
      var oldSize := blockSize - 8;
      if size <= oldSize {
        return ptr;
      }
      r := Kmalloc(size);
      if r != 0 {
        MoveRoom(old(mem), mem, freeListHead, free, old(live), live, ptr, r, size, oldSize);
        ghost var m, live1 := mem, live;
        var payload := Slice(mem, ptr, oldSize);
        Fill(r - 8, r, payload);
        ghost var m2 := mem;
        var _ := Kfree(ptr);
        MoveDone(old(mem), m, m2, mem, old(live), live1, ptr, r, size, oldSize, payload);
      }
    }
  }
}
