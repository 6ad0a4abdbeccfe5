/** Free and live blocks as a partition of the heap, and its canonical form. */
module HeapBlocks {
  import opened HeapMem
  import opened HeapSpec

  // Live blocks: address to size, header included.
  type Live = map<nat, nat>

  ghost predicate InLive(live: Live, x: nat) {
    exists a :: a in live && Block(a, live[a]).Has(x)
  }

  ghost predicate LiveSound(live: Live) {
    && (forall a :: a in live ==> Block(a, live[a]).Sound())
    && (forall a, b :: a in live && b in live && a < b ==> a + live[a] <= b)
  }

  /** Every byte of the heap lies in a free block or in a live one, never both. */
  ghost predicate Tiled(fl: seq<Block>, live: Live) {
    forall x :: HEAP_START <= x < HEAP_END ==> (InFree(fl, x) <==> !InLive(live, x))
  }

  /** The heap is exactly tiled, live blocks do not overlap, and no two free blocks touch. */
  ghost predicate Partition(fl: seq<Block>, live: Live) {
    Gapped(fl) && LiveSound(live) && Tiled(fl, live)
  }

  /** All n bytes from x on are in the heap and in no live block. */
  ghost predicate FreeRun(live: Live, x: nat, n: nat) {
    HEAP_START <= x && x + n <= HEAP_END && forall y :: x <= y < x + n ==> !InLive(live, y)
  }

  lemma {:induction false} Canonical(fl: seq<Block>, gl: seq<Block>)
    requires Gapped(fl) && Gapped(gl)
    requires forall x :: InFree(fl, x) <==> InFree(gl, x)
    ensures fl == gl
  {
    HeadIsFree(fl);
    HeadIsFree(gl);
    if fl != [] && gl != [] {
      FirstCovered(fl, gl);
      FirstCovered(gl, fl);
      assert fl[0] == gl[0];
      forall x ensures InFree(fl[1..], x) <==> InFree(gl[1..], x) {
        TailCovers(fl, x);
        TailCovers(gl, x);
      }
      Canonical(fl[1..], gl[1..]);
      assert fl == [fl[0]] + fl[1..] && gl == [gl[0]] + gl[1..];
    }
  }

  lemma HeadIsFree(fl: seq<Block>)
    requires Gapped(fl)
    ensures fl != [] ==> InFree(fl, fl[0].addr)
    ensures fl == [] ==> forall x :: !InFree(fl, x)
  {
    if fl != [] {
      assert fl[0].Has(fl[0].addr);
    }
  }

  // The first block of gl starts no later, and reaches at least as far, as the first block of fl.
  lemma FirstCovered(fl: seq<Block>, gl: seq<Block>)
    requires Gapped(fl) && Gapped(gl) && fl != [] && gl != []
    requires forall x :: InFree(fl, x) <==> InFree(gl, x)
    ensures gl[0].addr <= fl[0].addr
    ensures fl[0].addr <= gl[0].addr ==> fl[0].End() <= gl[0].End()
  {
    assert fl[0].Has(fl[0].addr) && InFree(fl, fl[0].addr);
    var k :| 0 <= k < |gl| && gl[k].Has(fl[0].addr);
    assert gl[0].Sound();
    EndNotFree(gl, 0);
    NotInAny(fl, gl[0].End());
  }

  lemma NotInAny(fl: seq<Block>, x: nat)
    requires !InFree(fl, x)
    ensures forall i :: 0 <= i < |fl| ==> !fl[i].Has(x)
  {
  }

  lemma TailCovers(fl: seq<Block>, x: nat)
    requires Gapped(fl) && fl != []
    ensures InFree(fl[1..], x) <==> InFree(fl, x) && !fl[0].Has(x)
  {
    if InFree(fl, x) && !fl[0].Has(x) {
      var k :| 0 <= k < |fl| && fl[k].Has(x);
      assert fl[1..][k - 1].Has(x);
    }
    if InFree(fl[1..], x) {
      var k :| 0 <= k < |fl[1..]| && fl[1..][k].Has(x);
      assert fl[k + 1].Has(x);
    }
  }

  lemma OnlyInHeap(fl: seq<Block>, x: nat)
    requires Gapped(fl) && InFree(fl, x)
    ensures HEAP_START <= x < HEAP_END
  {
  }

  /** The free list is a function of the live blocks. */
  lemma FreeListDetermined(fl: seq<Block>, gl: seq<Block>, live: Live)
    requires Partition(fl, live) && Partition(gl, live)
    ensures fl == gl
  {
    forall x ensures InFree(fl, x) <==> InFree(gl, x) {
      if InFree(fl, x) {
        OnlyInHeap(fl, x);
      }
      if InFree(gl, x) {
        OnlyInHeap(gl, x);
      }
    }
    hide Tiled, InFree;
    Canonical(fl, gl);
  }

  /** A run of free bytes lies within one free block. */
  lemma RunInBlock(fl: seq<Block>, live: Live, x: nat, n: nat) returns (i: nat)
    requires Partition(fl, live) && n > 0 && FreeRun(live, x, n)
    ensures i < |fl| && fl[i].addr <= x && x + n <= fl[i].End()
  {
    assert InFree(fl, x);
    i :| 0 <= i < |fl| && fl[i].Has(x);
    EndNotFree(fl, i);
  }

  lemma EndNotFree(fl: seq<Block>, i: nat)
    requires Gapped(fl) && i < |fl|
    ensures !InFree(fl, fl[i].End())
  {
  }

  lemma BlockIsRun(fl: seq<Block>, live: Live, i: nat, n: nat)
    requires Partition(fl, live) && i < |fl| && n <= fl[i].size
    ensures FreeRun(live, fl[i].addr, n)
  {
    assert fl[i].Sound();
    forall y | fl[i].addr <= y < fl[i].addr + n ensures !InLive(live, y) {
      assert fl[i].Has(y);
    }
  }

  /** If the first block large enough is the i-th, its address is the lowest one where n free bytes begin. */
  lemma FirstFitIsLowest(fl: seq<Block>, live: Live, i: nat, n: nat)
    requires Partition(fl, live) && i < |fl| && 0 < n <= fl[i].size
    requires forall k :: 0 <= k < i ==> fl[k].size < n
    ensures FreeRun(live, fl[i].addr, n)
    ensures forall x :: FreeRun(live, x, n) ==> fl[i].addr <= x
  {
    BlockIsRun(fl, live, i, n);
    forall x | FreeRun(live, x, n) ensures fl[i].addr <= x {
      var j := RunInBlock(fl, live, x, n);
      assert j >= i;
      if j > i {
        assert fl[i].End() < fl[j].addr;
      }
    }
  }

  /** If no block is large enough there is no room anywhere. */
  lemma NoFit(fl: seq<Block>, live: Live, n: nat)
    requires Partition(fl, live) && n > 0
    requires forall k :: 0 <= k < |fl| ==> fl[k].size < n
    ensures forall x :: !FreeRun(live, x, n)
  {
    forall x ensures !FreeRun(live, x, n) {
      if FreeRun(live, x, n) {
        var j := RunInBlock(fl, live, x, n);
        assert false;
      }
    }
  }

  /** The free list after block b, which belongs at position i, is freed: joined with a neighbour on either side that it
      touches. */
  ghost function Freed(fl: seq<Block>, i: nat, b: Block): seq<Block>
    requires i <= |fl|
  {
    MergePrev(MergeNextIf(InsertAt(fl, i, b), i), i)
  }

  ghost function MergeNextIf(l: seq<Block>, i: nat): seq<Block> {
    if i + 1 < |l| && l[i].End() == l[i + 1].addr then Merge(l, i) else l
  }

  ghost function MergePrev(l: seq<Block>, i: nat): seq<Block> {
    if 0 < i < |l| && l[i - 1].End() == l[i].addr then Merge(l, i - 1) else l
  }

  /** Block b lies between the blocks before position i and those from it on. */
  ghost predicate Between(fl: seq<Block>, i: nat, b: Block) {
    && i <= |fl|
    && (forall k :: 0 <= k < i ==> fl[k].End() <= b.addr)
    && (forall k :: i <= k < |fl| ==> b.End() <= fl[k].addr)
  }

  // Any two blocks that touch are neighbours at position i.
  ghost predicate GappedBut(l: seq<Block>, i: nat) {
    && Ordered(l)
    && (forall a, b :: 0 <= a < b < |l| && a != i && b != i ==> l[a].End() < l[b].addr)
    && (forall a :: 0 <= a && a + 1 < i && i < |l| ==> l[a].End() < l[i].addr)
    && (forall b :: i + 1 < b < |l| ==> l[i].End() < l[b].addr)
  }

  // Of two blocks of the longer list.
  lemma InsertPair(fl: seq<Block>, i: nat, b: Block, a: nat, c: nat)
    requires Gapped(fl) && b.Sound() && Between(fl, i, b) && a < c < |InsertAt(fl, i, b)|
    ensures var l := InsertAt(fl, i, b);
      && l[a].End() <= l[c].addr
      && ((a != i && c != i) || (c == i && a + 1 < i) || (a == i && i + 1 < c) ==> l[a].End() < l[c].addr)
  {
    InsertIndex(fl, i, b, a);
    InsertIndex(fl, i, b, c);
    if c == i && a + 1 < i {
      assert fl[a].End() < fl[i - 1].addr && fl[i - 1].Sound();
    } else if a == i && i + 1 < c {
      assert fl[i].End() < fl[c - 1].addr && fl[i].Sound();
    }
  }

  lemma InsertGapped(fl: seq<Block>, i: nat, b: Block)
    requires Gapped(fl) && b.Sound() && Between(fl, i, b)
    ensures GappedBut(InsertAt(fl, i, b), i) && |InsertAt(fl, i, b)| == |fl| + 1
  {
    var l := InsertAt(fl, i, b);
    InsertIndex(fl, i, b, i);
    forall a | 0 <= a < |l| ensures l[a].Sound() {
      InsertIndex(fl, i, b, a);
    }
    hide InsertAt, Between, Gapped;
    forall a, c | 0 <= a < c < |l|
      ensures l[a].End() <= l[c].addr
      ensures (a != i && c != i) || (c == i && a + 1 < i) || (a == i && i + 1 < c) ==> l[a].End() < l[c].addr
    {
      InsertPair(fl, i, b, a, c);
    }
  }

  lemma InsertCovers(fl: seq<Block>, i: nat, b: Block, x: nat)
    requires i <= |fl|
    ensures InFree(InsertAt(fl, i, b), x) <==> InFree(fl, x) || b.Has(x)
  {
    var l := InsertAt(fl, i, b);
    InsertIndex(fl, i, b, i);
    hide InsertAt;
    if InFree(l, x) {
      var k :| 0 <= k < |l| && l[k].Has(x);
      InsertIndex(fl, i, b, k);
    }
    if InFree(fl, x) {
      var k :| 0 <= k < |fl| && fl[k].Has(x);
      var o := if k < i then k else k + 1;
      InsertIndex(fl, i, b, o);
      assert l[o].Has(x);
    }
    if b.Has(x) {
      assert l[i].Has(x);
    }
  }

  lemma MergeNextGapped(l: seq<Block>, i: nat)
    requires i < |l| && GappedBut(l, i)
    ensures var r := MergeNextIf(l, i);
      i < |r| && GappedBut(r, i) && (i + 1 < |r| ==> r[i].End() < r[i + 1].addr)
  {
    if i + 1 < |l| && l[i].End() == l[i + 1].addr {
      var r := Merge(l, i);
      MergeOrdered(l, i);
      MergeIndex(l, i, i);
      hide Merge;
      forall a, b | 0 <= a < b < |r| && a != i && b != i ensures r[a].End() < r[b].addr {
        MergeIndex(l, i, a);
        MergeIndex(l, i, b);
      }
      forall a | 0 <= a && a + 1 < i ensures r[a].End() < r[i].addr {
        MergeIndex(l, i, a);
      }
      forall b | i < b < |r| ensures r[i].End() < r[b].addr {
        MergeIndex(l, i, b);
        assert l[i + 1].End() < l[b + 1].addr;
      }
    }
  }

  lemma MergePrevGapped(l: seq<Block>, i: nat)
    requires i < |l| && GappedBut(l, i) && (i + 1 < |l| ==> l[i].End() < l[i + 1].addr)
    ensures Gapped(MergePrev(l, i))
  {
    if i > 0 && l[i - 1].End() == l[i].addr {
      MergedGapped(l, i);
    } else {
      hide Merge;
      forall a, b | 0 <= a < b < |l| ensures l[a].End() < l[b].addr {
        assert l[a].End() <= l[b].addr;
      }
    }
  }

  lemma MergedGapped(l: seq<Block>, i: nat)
    requires 0 < i < |l| && GappedBut(l, i) && (i + 1 < |l| ==> l[i].End() < l[i + 1].addr)
    requires l[i - 1].End() == l[i].addr
    ensures Gapped(Merge(l, i - 1))
  {
    var r := Merge(l, i - 1);
    MergeOrdered(l, i - 1);
    MergeIndex(l, i - 1, 0);
    hide Merge;
    forall a, b | 0 <= a < b < |r| ensures r[a].End() < r[b].addr {
      MergeIndex(l, i - 1, a);
      MergeIndex(l, i - 1, b);
    }
  }

  /** Freeing keeps the list gapped and adds exactly the bytes of the freed block. */
  lemma FreedGapped(fl: seq<Block>, i: nat, b: Block)
    requires Gapped(fl) && b.Sound() && Between(fl, i, b)
    ensures Gapped(Freed(fl, i, b))
    ensures forall x :: InFree(Freed(fl, i, b), x) <==> InFree(fl, x) || b.Has(x)
  {
    hide InsertAt, Merge;
    InsertGapped(fl, i, b);
    var l := InsertAt(fl, i, b);
    MergeNextGapped(l, i);
    var r := MergeNextIf(l, i);
    MergePrevGapped(r, i);
    forall x ensures InFree(Freed(fl, i, b), x) <==> InFree(fl, x) || b.Has(x) {
      InsertCovers(fl, i, b, x);
      if i + 1 < |l| && l[i].End() == l[i + 1].addr {
        MergeCovers(l, i, x);
      }
      if i > 0 && r[i - 1].End() == r[i].addr {
        MergeCovers(r, i - 1, x);
      }
    }
  }

  /** The free list after the first n bytes of block i are taken; the rest of the block stays if it can hold a node. */
  ghost function Taken(fl: seq<Block>, i: nat, n: nat): seq<Block>
    requires i < |fl|
  {
    if fl[i].size >= n + MIN_ALLOC_SIZE then InsertAt(Remove(fl, i), i, Block(fl[i].addr + n, fl[i].size - n))
    else Remove(fl, i)
  }

  lemma RemovedIn(fl: seq<Block>, i: nat, x: nat)
    requires i < |fl| && Ordered(fl) && InFree(Remove(fl, i), x)
    ensures InFree(fl, x) && !fl[i].Has(x)
  {
    var l := Remove(fl, i);
    RemoveLength(fl, i);
    hide Remove;
    var k :| 0 <= k < |l| && l[k].Has(x);
    RemoveIndex(fl, i, k);
    assert fl[if k < i then k else k + 1].Has(x);
  }

  lemma NotRemoved(fl: seq<Block>, i: nat, x: nat)
    requires i < |fl| && InFree(fl, x) && !fl[i].Has(x)
    ensures InFree(Remove(fl, i), x)
  {
    var l := Remove(fl, i);
    RemoveLength(fl, i);
    hide Remove;
    var k :| 0 <= k < |fl| && fl[k].Has(x);
    var o := if k < i then k else k - 1;
    RemoveIndex(fl, i, o);
    assert l[o].Has(x);
  }

  lemma RemoveCovers(fl: seq<Block>, i: nat, x: nat)
    requires i < |fl| && Ordered(fl)
    ensures InFree(Remove(fl, i), x) <==> InFree(fl, x) && !fl[i].Has(x)
  {
    hide Remove, InFree, Ordered;
    if InFree(Remove(fl, i), x) {
      RemovedIn(fl, i, x);
    }
    if InFree(fl, x) && !fl[i].Has(x) {
      NotRemoved(fl, i, x);
    }
  }

  lemma TakenGapped(fl: seq<Block>, i: nat, n: nat)
    requires Gapped(fl) && i < |fl| && n % HEAP_ALIGNMENT == 0 && MIN_ALLOC_SIZE <= n <= fl[i].size
    ensures Gapped(Taken(fl, i, n))
  {
    RemoveOrdered(fl, i);
    RemoveLength(fl, i);
    if fl[i].size >= n + MIN_ALLOC_SIZE {
      CutGapped(fl, i, Block(fl[i].addr + n, fl[i].size - n));
    }
  }

  // Replacing a block by its tail.
  lemma CutGapped(fl: seq<Block>, i: nat, b: Block)
    requires Gapped(fl) && i < |fl| && b.Sound() && fl[i].addr <= b.addr && b.End() == fl[i].End()
    ensures Gapped(InsertAt(Remove(fl, i), i, b))
  {
    var l := InsertAt(Remove(fl, i), i, b);
    TakenBlock(fl, i, b, i);
    hide Remove, InsertAt;
    forall a | 0 <= a < |l| ensures l[a].Sound() {
      TakenBlock(fl, i, b, a);
    }
    forall a, c | 0 <= a < c < |l| ensures l[a].End() < l[c].addr {
      TakenBlock(fl, i, b, a);
      TakenBlock(fl, i, b, c);
    }
  }

  lemma TakenBlock(fl: seq<Block>, i: nat, b: Block, k: nat)
    requires i < |fl| && k < |fl|
    ensures |InsertAt(Remove(fl, i), i, b)| == |fl|
    ensures InsertAt(Remove(fl, i), i, b)[k] == if k == i then b else fl[k]
  {
  }

  lemma TakenCovers(fl: seq<Block>, i: nat, n: nat, x: nat)
    requires Gapped(fl) && i < |fl| && n % HEAP_ALIGNMENT == 0 && MIN_ALLOC_SIZE <= n <= fl[i].size
    ensures InFree(Taken(fl, i, n), x) <==> InFree(fl, x) && !Block(fl[i].addr, n).Has(x)
  {
    assert fl[i].Sound();
    RemoveCovers(fl, i, x);
    RemoveLength(fl, i);
    if fl[i].size >= n + MIN_ALLOC_SIZE {
      InsertCovers(Remove(fl, i), i, Block(fl[i].addr + n, fl[i].size - n), x);
    }
    if fl[i].Has(x) {
      assert InFree(fl, x);
    }
  }

  /** Taking a block from the free list and giving it to the caller keeps the heap a partition. */
  lemma TakenPartition(fl: seq<Block>, live: Live, i: nat, n: nat)
    requires Partition(fl, live) && i < |fl| && n % HEAP_ALIGNMENT == 0 && MIN_ALLOC_SIZE <= n <= fl[i].size
    ensures fl[i].addr !in live
    ensures Partition(Taken(fl, i, n), live[fl[i].addr := n])
  {
    var a := fl[i].addr;
    var live' := live[a := n];
    assert fl[i].Sound();
    TakenGapped(fl, i, n);
    ApartFromLive(fl, live, i);
    hide Taken;
    forall x | HEAP_START <= x < HEAP_END ensures InFree(Taken(fl, i, n), x) <==> !InLive(live', x) {
      TakenCovers(fl, i, n, x);
      AddedLive(live, a, n, x);
    }
  }

  lemma AddedLive(live: Live, a: nat, n: nat, x: nat)
    requires a !in live
    ensures InLive(live[a := n], x) <==> InLive(live, x) || Block(a, n).Has(x)
  {
    var live' := live[a := n];
    if InLive(live, x) {
      var c :| c in live && Block(c, live[c]).Has(x);
      assert c in live' && Block(c, live'[c]).Has(x);
    }
    if Block(a, n).Has(x) {
      assert a in live' && Block(a, live'[a]).Has(x);
    }
  }

  // Free and live blocks do not overlap.
  lemma ApartFromLive(fl: seq<Block>, live: Live, i: nat)
    requires Partition(fl, live) && i < |fl|
    ensures forall c :: c in live ==> c + live[c] <= fl[i].addr || fl[i].End() <= c
  {
    forall c | c in live ensures c + live[c] <= fl[i].addr || fl[i].End() <= c {
      assert fl[i].Sound() && Block(c, live[c]).Sound();
      var x := if c <= fl[i].addr then fl[i].addr else c;
      assert fl[i].Has(x) ==> InFree(fl, x);
      assert Block(c, live[c]).Has(x) ==> InLive(live, x);
    }
  }

  /** Freeing a live block keeps the heap a partition. */
  lemma FreedPartition(fl: seq<Block>, live: Live, i: nat, a: nat)
    requires Partition(fl, live) && a in live && Between(fl, i, Block(a, live[a]))
    ensures Partition(Freed(fl, i, Block(a, live[a])), live - {a})
  {
    var b := Block(a, live[a]);
    FreedGapped(fl, i, b);
    hide Freed;
    forall x | HEAP_START <= x < HEAP_END ensures InFree(Freed(fl, i, b), x) <==> !InLive(live - {a}, x) {
      RemovedLive(live, a, x);
    }
  }

  lemma RemovedLive(live: Live, a: nat, x: nat)
    requires LiveSound(live) && a in live
    ensures InLive(live - {a}, x) <==> InLive(live, x) && !Block(a, live[a]).Has(x)
  {
    if InLive(live, x) && !Block(a, live[a]).Has(x) {
      var c :| c in live && Block(c, live[c]).Has(x);
      assert c in live - {a};
    }
  }

  /** A live block fits between the free blocks before it and those after it. */
  lemma LivePosition(fl: seq<Block>, live: Live, i: nat, a: nat)
    requires Partition(fl, live) && a in live && i <= |fl|
    requires forall k :: 0 <= k < i ==> fl[k].addr < a
    requires forall k :: i <= k < |fl| ==> a <= fl[k].addr
    ensures Block(a, live[a]).Sound() && Between(fl, i, Block(a, live[a]))
  {
    forall k | 0 <= k < |fl| ensures fl[k].End() <= a || a + live[a] <= fl[k].addr {
      ApartFromLive(fl, live, k);
    }
    forall k | 0 <= k < |fl| ensures fl[k].Sound() {}
  }
}
