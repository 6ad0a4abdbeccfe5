/** The canonical form of the heap: its free list depends on the live blocks only. */
module HeapTheorems {
  import opened Machine
  import opened HeapMem
  import opened HeapSpec
  import opened HeapBlocks
  import opened HeapSteps
  import opened Heap

  /** Two heaps with the same live blocks have the same free list, node for node. */
  lemma SameLiveSameList(m: Bytes, head: nat, fl: seq<Block>, n: Bytes, head': nat, gl: seq<Block>, live: Live)
    requires HeapIs(m, head, fl, live) && HeapIs(n, head', gl, live)
    ensures gl == fl && head' == head
    ensures forall i :: 0 <= i < |fl| ==> NodeAt(m, fl, i) && NodeAt(n, fl, i)
  {
    hide Partition, Headers, NodeAt;
    FreeListDetermined(fl, gl, live);
  }

  /** Two heaps with the same live blocks, however they came about, end with the same list when p and q are freed
      in one order in the first and in the other in the second. */
  method FreesCommute(h: KernelHeap, g: KernelHeap, p: nat, q: nat)
    requires h != g && h.Valid() && g.Valid() && h.live == g.live
    requires p != q && p >= 8 && q >= 8 && p - 8 in h.live && q - 8 in h.live
    modifies h, g
    ensures h.Valid() && g.Valid() && h.live == g.live == old(h.live) - {p - 8, q - 8}
    ensures h.free == g.free && h.freeListHead == g.freeListHead
    ensures KeepsBlocks(old(h.mem), h.mem, h.live) && KeepsBlocks(old(g.mem), g.mem, g.live)
  {
    hide HeapIs, KeepsBlocks;
    FreeBoth(h, p, q);
    FreeBoth(g, q, p);
    assert {p - 8, q - 8} == {q - 8, p - 8};
    SameLiveSameList(h.mem, h.freeListHead, h.free, g.mem, g.freeListHead, g.free, h.live);
  }

  method FreeBoth(h: KernelHeap, p: nat, q: nat)
    requires h.Valid() && p != q && p >= 8 && q >= 8 && p - 8 in h.live && q - 8 in h.live
    modifies h
    ensures h.Valid() && h.live == old(h.live) - {p - 8, q - 8} && KeepsBlocks(old(h.mem), h.mem, h.live)
  {
    hide HeapIs;
    ghost var m := h.mem;
    var _ := h.Kfree(p);
    ghost var m1, live1 := h.mem, h.live;
    var _ := h.Kfree(q);
    KeptByBoth(m, m1, h.mem, live1, h.live);
  }

  lemma KeptByBoth(m: Bytes, n: Bytes, o: Bytes, live: Live, live': Live)
    requires KeepsBlocks(m, n, live) && KeepsBlocks(n, o, live')
    requires forall c :: c in live' ==> c in live && live[c] == live'[c]
    ensures KeepsBlocks(m, o, live')
  {
    hide Slice;
  }

  /** Freeing what kmalloc just granted restores the free list exactly. */
  lemma FreeUndoesMalloc(m: Bytes, head: nat, fl: seq<Block>, n: Bytes, head': nat, gl: seq<Block>, live: Live,
                         live': Live, ptr: nat, k: nat)
    requires HeapIs(m, head, fl, live) && Granted(live, live', ptr, k) && HeapIs(n, head', gl, live' - {ptr - 8})
    ensures gl == fl && head' == head
  {
    hide HeapIs, FreeRun;
    assert live' - {ptr - 8} == live;
    SameLiveSameList(m, head, fl, n, head', gl, live);
  }

  /** Allocating and freeing again leaves free list, live blocks and the bytes of all live blocks as they were. */
  method MallocThenFree(h: KernelHeap, size: nat)
    requires h.Valid() && size < U64
    modifies h
    ensures h.Valid() && h.free == old(h.free) && h.freeListHead == old(h.freeListHead) && h.live == old(h.live)
    ensures KeepsBlocks(old(h.mem), h.mem, h.live)
  {
    hide HeapIs, Granted, KeepsBlocks, FreeRun, Rounded;
    ghost var m, head, fl, live := h.mem, h.freeListHead, h.free, h.live;
    var ptr := h.Kmalloc(size);
    if ptr != 0 {
      ghost var m1, live1 := h.mem, h.live;
      Undone(live, live1, ptr, Rounded(size));
      var _ := h.Kfree(ptr);
      FreeUndoesMalloc(m, head, fl, h.mem, h.freeListHead, h.free, live, live1, ptr, Rounded(size));
      KeptByBoth(m, m1, h.mem, live, live);
    }
  }

  lemma Undone(live: Live, live': Live, ptr: nat, n: nat)
    requires Granted(live, live', ptr, n)
    ensures ptr >= 8 && ptr - 8 in live' && live' - {ptr - 8} == live
  {
    hide FreeRun;
  }

  /** When everything has been freed, one block of the whole heap is left. */
  lemma AllFreed(m: Bytes, head: nat, fl: seq<Block>)
    requires HeapIs(m, head, fl, map[])
    ensures fl == [Block(HEAP_START, HEAP_SIZE)] && head == HEAP_START
  {
    hide Headers, Word;
    var whole := [Block(HEAP_START, HEAP_SIZE)];
    KernelHeap.WholeHeap(whole, map[]);
    FreeListDetermined(fl, whole, map[]);
  }

  /** No two free blocks touch, and free and live sizes add up byte for byte: every heap address is in exactly one
      block. */
  lemma ExactlyOneBlock(m: Bytes, head: nat, fl: seq<Block>, live: Live, x: nat)
    requires HeapIs(m, head, fl, live) && HEAP_START <= x < HEAP_END
    ensures (exists i :: 0 <= i < |fl| && fl[i].Has(x)) != (exists a :: a in live && Block(a, live[a]).Has(x))
    ensures forall i, j :: 0 <= i < |fl| && 0 <= j < |fl| && fl[i].Has(x) && fl[j].Has(x) ==> i == j
    ensures forall a, b :: a in live && b in live && Block(a, live[a]).Has(x) && Block(b, live[b]).Has(x) ==> a == b
  {
    hide Headers, Linked;
    assert InFree(fl, x) != InLive(live, x);
  }
}
