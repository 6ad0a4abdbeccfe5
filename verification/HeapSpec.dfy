/** The heap's free list as a sequence of blocks, and what each relinking of its nodes does to that sequence. */
module HeapSpec {
  import opened Machine
  import opened HeapMem

  const MIN_ALLOC_SIZE: nat := 16
  const HEAP_ALIGNMENT: nat := 16

  datatype Block = Block(addr: nat, size: nat) {
    function End(): nat {
      addr + size
    }

    /** Inside the heap, aligned, and large enough for a free-list node. */
    predicate Sound() {
      && HEAP_START <= addr && End() <= HEAP_END
      && addr % HEAP_ALIGNMENT == 0 && size % HEAP_ALIGNMENT == 0 && size >= MIN_ALLOC_SIZE
    }

    predicate Has(x: nat) {
      addr <= x < End()
    }
  }

  /** Sound blocks in address order, not overlapping. */
  ghost predicate Ordered(fl: seq<Block>) {
    && (forall i :: 0 <= i < |fl| ==> fl[i].Sound())
    && (forall i, j :: 0 <= i < j < |fl| ==> fl[i].End() <= fl[j].addr)
  }

  /** Ordered, and no block touches the next. */
  ghost predicate Gapped(fl: seq<Block>) {
    && (forall i :: 0 <= i < |fl| ==> fl[i].Sound())
    && (forall i, j :: 0 <= i < j < |fl| ==> fl[i].End() < fl[j].addr)
  }

  ghost predicate InFree(fl: seq<Block>, x: nat) {
    exists i :: 0 <= i < |fl| && fl[i].Has(x)
  }

  /** The address of the i-th block, or the null pointer after the last. */
  function AddrAt(fl: seq<Block>, i: nat): nat {
    if i < |fl| then fl[i].addr else 0
  }

  /** The i-th block starts with its size and a pointer to the next. */
  ghost predicate NodeAt(m: Bytes, fl: seq<Block>, i: nat) {
    && i < |fl| && fl[i].Sound()
    && Word(m, fl[i].addr) == fl[i].size && Word(m, fl[i].addr + 8) == AddrAt(fl, i + 1)
  }

  /** Memory holds the list fl, starting at head. */
  ghost predicate Linked(m: Bytes, head: nat, fl: seq<Block>) {
    head == AddrAt(fl, 0) && forall i :: 0 <= i < |fl| ==> NodeAt(m, fl, i)
  }

  /** As NodeAt, but the pointer of the node before position gap may be anything. */
  ghost predicate NodeBut(m: Bytes, fl: seq<Block>, i: nat, gap: nat) {
    && i < |fl| && fl[i].Sound()
    && Word(m, fl[i].addr) == fl[i].size && (i + 1 != gap ==> Word(m, fl[i].addr + 8) == AddrAt(fl, i + 1))
  }

  /** Memory holds the list fl except for the pointer to position gap. */
  ghost predicate LinkedBut(m: Bytes, head: nat, fl: seq<Block>, gap: nat) {
    (gap != 0 ==> head == AddrAt(fl, 0)) && forall i :: 0 <= i < |fl| ==> NodeBut(m, fl, i, gap)
  }

  lemma LinkedHasNoGap(m: Bytes, head: nat, fl: seq<Block>, gap: nat)
    requires Linked(m, head, fl)
    ensures LinkedBut(m, head, fl, gap)
  {
    hide Word, AddrAt;
    forall i | 0 <= i < |fl| ensures NodeBut(m, fl, i, gap) {
      assert NodeAt(m, fl, i);
    }
  }

  /** Memory differs at most in bytes of the blocks fl. */
  ghost predicate SameOutside(m: Bytes, n: Bytes, fl: seq<Block>) {
    forall x :: HEAP_START <= x < HEAP_END && !InFree(fl, x) ==> n[x - HEAP_START] == m[x - HEAP_START]
  }

  lemma WordInBlock(m: Bytes, a: nat, v: nat, fl: seq<Block>, i: nat)
    requires i < |fl| && Ordered(fl) && fl[i].addr <= a && a + 8 <= fl[i].End()
    ensures SameOutside(m, WriteWord(m, a, v), fl)
  {
    forall x | HEAP_START <= x < HEAP_END && !InFree(fl, x)
      ensures WriteWord(m, a, v)[x - HEAP_START] == m[x - HEAP_START]
    {
      assert !fl[i].Has(x);
    }
  }

  lemma SameOutsideTrans(m: Bytes, n: Bytes, o: Bytes, fl: seq<Block>)
    requires SameOutside(m, n, fl) && SameOutside(n, o, fl)
    ensures SameOutside(m, o, fl)
  {
    hide InFree;
  }

  lemma WriteNode(m: Bytes, b: Block, size: nat, next: nat)
    requires b.Sound() && size < U64 && next < U64
    ensures var n := WriteWord(WriteWord(m, b.addr, size), b.addr + 8, next);
      Word(n, b.addr) == size && Word(n, b.addr + 8) == next
  {
    hide Word, WriteWord;
    var m1 := WriteWord(m, b.addr, size);
    ReadBack(m, b.addr, size);
    ReadBack(m1, b.addr + 8, next);
    WordElsewhere(m1, b.addr + 8, next, b.addr, 8);
  }

  /** Put block b in the list at position i. */
  function InsertAt(fl: seq<Block>, i: nat, b: Block): seq<Block>
    requires i <= |fl|
  {
    fl[..i] + [b] + fl[i..]
  }

  /** Join block j with the block after it. */
  function Merge(fl: seq<Block>, j: nat): seq<Block>
    requires j + 1 < |fl|
  {
    fl[..j] + [Block(fl[j].addr, fl[j].size + fl[j + 1].size)] + fl[j + 2..]
  }

  function Remove(fl: seq<Block>, i: nat): seq<Block>
    requires i < |fl|
  {
    fl[..i] + fl[i + 1..]
  }

  /** The memory after the node for b has been written and the node before it made to point to it. */
  ghost function LinkIn(m: Bytes, fl: seq<Block>, i: nat, b: Block): Bytes
    requires i <= |fl| && Ordered(InsertAt(fl, i, b))
  {
    assert InsertAt(fl, i, b)[i] == b;
    var n := WriteWord(WriteWord(m, b.addr, b.size), b.addr + 8, AddrAt(fl, i));
    if i == 0 then n
    else
      assert InsertAt(fl, i, b)[i - 1] == fl[i - 1];
      WriteWord(n, fl[i - 1].addr + 8, b.addr)
  }

  lemma InsertIndex(fl: seq<Block>, i: nat, b: Block, k: nat)
    requires i <= |fl| && k <= |fl|
    ensures |InsertAt(fl, i, b)| == |fl| + 1
    ensures InsertAt(fl, i, b)[k] == if k < i then fl[k] else if k == i then b else fl[k - 1]
  {
  }

  // Writing the first two words of one block leaves the words of a disjoint block alone.
  lemma OtherNode(m: Bytes, b: Block, a: nat, v: nat, c: Block)
    requires b.Sound() && c.Sound() && (b.End() <= c.addr || c.End() <= b.addr)
    requires a == b.addr || a == b.addr + 8
    ensures Word(WriteWord(m, a, v), c.addr) == Word(m, c.addr)
    ensures Word(WriteWord(m, a, v), c.addr + 8) == Word(m, c.addr + 8)
  {
    hide Word, WriteWord;
    WordElsewhere(m, a, v, c.addr, 8);
    WordElsewhere(m, a, v, c.addr + 8, 8);
  }

  lemma AddressFits(fl: seq<Block>, i: nat)
    requires Ordered(fl)
    ensures AddrAt(fl, i) < U64
    ensures i < |fl| ==> fl[i].size < U64
  {
    if i < |fl| {
      assert fl[i].Sound();
    }
  }

  // Writing the node of a block apart from block c changes neither word of c's node.
  lemma OtherNodes(m: Bytes, b: Block, size: nat, next: nat, c: Block)
    requires b.Sound() && c.Sound() && (b.End() <= c.addr || c.End() <= b.addr)
    ensures var n := WriteWord(WriteWord(m, b.addr, size), b.addr + 8, next);
      Word(n, c.addr) == Word(m, c.addr) && Word(n, c.addr + 8) == Word(m, c.addr + 8)
  {
    hide Word, WriteWord;
    OtherNode(m, b, b.addr, size, c);
    OtherNode(WriteWord(m, b.addr, size), b, b.addr + 8, next, c);
  }

  // Both writes to a node stay within its block.
  lemma NodeInBlock(m: Bytes, fl: seq<Block>, i: nat, size: nat, next: nat)
    requires Ordered(fl) && i < |fl|
    ensures SameOutside(m, WriteWord(WriteWord(m, fl[i].addr, size), fl[i].addr + 8, next), fl)
  {
    assert fl[i].Sound();
    var m1 := WriteWord(m, fl[i].addr, size);
    WordInBlock(m, fl[i].addr, size, fl, i);
    WordInBlock(m1, fl[i].addr + 8, next, fl, i);
    hide WriteWord, InFree;
    SameOutsideTrans(m, m1, WriteWord(m1, fl[i].addr + 8, next), fl);
  }

  // Two blocks of an ordered list are apart.
  lemma Apart(fl: seq<Block>, i: nat, j: nat)
    requires Ordered(fl) && i < |fl| && j < |fl| && i != j
    ensures fl[i].Sound() && fl[j].Sound() && (fl[i].End() <= fl[j].addr || fl[j].End() <= fl[i].addr)
  {
  }

  // Redirecting a next pointer.
  lemma Redirect(m: Bytes, p: Block, next: nat)
    requires p.Sound() && next < U64
    ensures var n := WriteWord(m, p.addr + 8, next); Word(n, p.addr) == Word(m, p.addr) && Word(n, p.addr + 8) == next
  {
    hide Word, WriteWord;
    WordElsewhere(m, p.addr + 8, next, p.addr, 8);
    ReadBack(m, p.addr + 8, next);
  }

  /** Linking block b in at position i makes memory hold the longer list. */
  lemma LinkInLinks(m: Bytes, head: nat, fl: seq<Block>, i: nat, b: Block)
    requires i <= |fl| && Ordered(InsertAt(fl, i, b)) && LinkedBut(m, head, fl, i)
    ensures Linked(LinkIn(m, fl, i, b), if i == 0 then b.addr else head, InsertAt(fl, i, b))
    ensures SameOutside(m, LinkIn(m, fl, i, b), InsertAt(fl, i, b))
  {
    var l := InsertAt(fl, i, b);
    InsertIndex(fl, i, b, i);
    InsertIndex(fl, i, b, 0);
    if i > 0 {
      InsertIndex(fl, i, b, i - 1);
    }
    LinkInWithin(m, fl, i, b);
    forall k | 0 <= k < |l| ensures NodeAt(LinkIn(m, fl, i, b), l, k) {
      LinkInNode(m, head, fl, i, b, k);
    }
  }

  lemma SoundAt(l: seq<Block>, i: nat)
    requires Ordered(l) && i < |l|
    ensures l[i].Sound()
  {
  }

  lemma LinkInWithin(m: Bytes, fl: seq<Block>, i: nat, b: Block)
    requires i <= |fl| && Ordered(InsertAt(fl, i, b))
    ensures SameOutside(m, LinkIn(m, fl, i, b), InsertAt(fl, i, b))
  {
    hide WriteWord, InFree, SameOutside, Ordered, AddrAt;
    var l := InsertAt(fl, i, b);
    InsertIndex(fl, i, b, i);
    NodeInBlock(m, l, i, b.size, AddrAt(fl, i));
    if i > 0 {
      InsertIndex(fl, i, b, i - 1);
      var n := WriteWord(WriteWord(m, b.addr, b.size), b.addr + 8, AddrAt(fl, i));
      SoundAt(l, i - 1);
      WordInBlock(n, fl[i - 1].addr + 8, b.addr, l, i - 1);
      SameOutsideTrans(m, n, LinkIn(m, fl, i, b), l);
    }
  }

  // Block k of the longer list, and the one after it.
  lemma InsertNext(fl: seq<Block>, i: nat, b: Block, k: nat)
    requires i <= |fl| && Ordered(InsertAt(fl, i, b)) && k <= |fl|
    ensures var l := InsertAt(fl, i, b);
      && |l| == |fl| + 1 && l[k] == (if k < i then fl[k] else if k == i then b else fl[k - 1]) && l[k].Sound()
      && AddrAt(l, k + 1) == if k + 1 < i then AddrAt(fl, k + 1) else if k + 1 == i then b.addr else AddrAt(fl, k)
  {
    InsertIndex(fl, i, b, k);
    if k < |fl| {
      InsertIndex(fl, i, b, k + 1);
    }
    hide InsertAt;
  }

  lemma LinkInNode(m: Bytes, head: nat, fl: seq<Block>, i: nat, b: Block, k: nat)
    requires i <= |fl| && Ordered(InsertAt(fl, i, b)) && LinkedBut(m, head, fl, i) && k <= |fl|
    ensures NodeAt(LinkIn(m, fl, i, b), InsertAt(fl, i, b), k)
  {
    hide Word, WriteWord, InsertAt, AddrAt, Ordered, LinkIn;
    InsertNext(fl, i, b, k);
    if k == i {
      LinkedNew(m, fl, i, b);
    } else {
      var o := if k < i then k else k - 1;
      assert NodeBut(m, fl, o, i);
      LinkedOld(m, fl, i, b, o);
    }
  }

  lemma LinkedNew(m: Bytes, fl: seq<Block>, i: nat, b: Block)
    requires i <= |fl| && Ordered(InsertAt(fl, i, b))
    ensures b.Sound() && Word(LinkIn(m, fl, i, b), b.addr) == b.size
      && Word(LinkIn(m, fl, i, b), b.addr + 8) == AddrAt(fl, i)
  {
    var l := InsertAt(fl, i, b);
    InsertNext(fl, i, b, i);
    AddressFits(l, i);
    AddressFits(l, i + 1);
    hide Word, WriteWord, InsertAt, AddrAt;
    var n := WriteWord(WriteWord(m, b.addr, b.size), b.addr + 8, AddrAt(fl, i));
    WriteNode(m, b, b.size, AddrAt(fl, i));
    if i > 0 {
      InsertNext(fl, i, b, i - 1);
      Apart(l, i, i - 1);
      OtherNode(n, fl[i - 1], fl[i - 1].addr + 8, b.addr, b);
    }
  }

  lemma LinkedOld(m: Bytes, fl: seq<Block>, i: nat, b: Block, o: nat)
    requires i <= |fl| && Ordered(InsertAt(fl, i, b)) && o < |fl| && fl[o].Sound()
    ensures Word(LinkIn(m, fl, i, b), fl[o].addr) == Word(m, fl[o].addr)
    ensures Word(LinkIn(m, fl, i, b), fl[o].addr + 8) == if o + 1 == i then b.addr else Word(m, fl[o].addr + 8)
  {
    hide Word, WriteWord, AddrAt, Ordered, InsertAt;
    InsertApart(fl, i, b, o, i);
    OtherNodes(m, b, b.size, AddrAt(fl, i), fl[o]);
    if i > 0 {
      var n := WriteWord(WriteWord(m, b.addr, b.size), b.addr + 8, AddrAt(fl, i));
      InsertApart(fl, i, b, o, i - 1);
      RedirectOne(n, fl[i - 1], b.addr, fl[o]);
    }
  }

  // Block o of the old list is block p of the new one, or apart from it.
  lemma InsertApart(fl: seq<Block>, i: nat, b: Block, o: nat, p: nat)
    requires i <= |fl| && Ordered(InsertAt(fl, i, b)) && o < |fl| && (p == i || p + 1 == i)
    ensures fl[o].Sound() && b.Sound() && b.addr < U64
    ensures p == i ==> b.End() <= fl[o].addr || fl[o].End() <= b.addr
    ensures p < i ==> fl[p].Sound() && (p == o || fl[p].End() <= fl[o].addr || fl[o].End() <= fl[p].addr)
  {
    var l := InsertAt(fl, i, b);
    var k := if o < i then o else o + 1;
    InsertNext(fl, i, b, i);
    InsertNext(fl, i, b, k);
    InsertNext(fl, i, b, p);
    AddressFits(l, i);
    if k != p {
      Apart(l, k, p);
    }
  }

  // Redirecting p's next pointer, seen from a node c that is p or apart from it.
  lemma RedirectOne(m: Bytes, p: Block, next: nat, c: Block)
    requires p.Sound() && c.Sound() && next < U64 && (p == c || p.End() <= c.addr || c.End() <= p.addr)
    ensures var n := WriteWord(m, p.addr + 8, next);
      && Word(n, c.addr) == Word(m, c.addr)
      && Word(n, c.addr + 8) == if c == p then next else Word(m, c.addr + 8)
  {
    hide Word, WriteWord;
    if c == p {
      Redirect(m, p, next);
    } else {
      OtherNode(m, p, p.addr + 8, next, c);
    }
  }

  lemma MergeIndex(fl: seq<Block>, j: nat, k: nat)
    requires j + 1 < |fl| && k < |fl| - 1
    ensures |Merge(fl, j)| == |fl| - 1
    ensures Merge(fl, j)[k] ==
      if k < j then fl[k] else if k == j then Block(fl[j].addr, fl[j].size + fl[j + 1].size) else fl[k + 1]
  {
  }

  lemma MergeOrdered(fl: seq<Block>, j: nat)
    requires j + 1 < |fl| && Ordered(fl) && fl[j].End() == fl[j + 1].addr
    ensures Ordered(Merge(fl, j))
  {
    var l := Merge(fl, j);
    hide Merge;
    MergeIndex(fl, j, 0);
    assert fl[j].Sound() && fl[j + 1].Sound();
    forall a | 0 <= a < |l| ensures l[a].Sound() {
      MergeIndex(fl, j, a);
    }
    forall a, b | 0 <= a < b < |l| ensures l[a].End() <= l[b].addr {
      MergeIndex(fl, j, a);
      MergeIndex(fl, j, b);
    }
  }

  lemma MergeCovers(fl: seq<Block>, j: nat, x: nat)
    requires j + 1 < |fl| && fl[j].End() == fl[j + 1].addr
    ensures InFree(Merge(fl, j), x) <==> InFree(fl, x)
  {
    var l := Merge(fl, j);
    hide Merge;
    MergeIndex(fl, j, j);
    if InFree(fl, x) {
      var k :| 0 <= k < |fl| && fl[k].Has(x);
      var o := if k <= j then k else k - 1;
      MergeIndex(fl, j, o);
      assert l[o].Has(x);
    }
    if InFree(l, x) {
      var k :| 0 <= k < |l| && l[k].Has(x);
      MergeIndex(fl, j, k);
      var o := if k < j then k else if k > j then k + 1 else if fl[j].Has(x) then j else j + 1;
      assert fl[o].Has(x);
    }
  }

  /** The memory after block j has swallowed its neighbour. */
  ghost function MergeIn(m: Bytes, fl: seq<Block>, j: nat): Bytes
    requires j + 1 < |fl| && Ordered(fl)
  {
    WriteWord(WriteWord(m, fl[j].addr, fl[j].size + fl[j + 1].size), fl[j].addr + 8, AddrAt(fl, j + 2))
  }

  lemma MergeInLinks(m: Bytes, head: nat, fl: seq<Block>, j: nat)
    requires j + 1 < |fl| && Ordered(fl) && Linked(m, head, fl) && fl[j].End() == fl[j + 1].addr
    ensures Ordered(Merge(fl, j)) && Linked(MergeIn(m, fl, j), head, Merge(fl, j))
    ensures SameOutside(m, MergeIn(m, fl, j), fl)
  {
    hide SameOutside, InFree, WriteWord, Word, Ordered;
    var l := Merge(fl, j);
    MergeOrdered(fl, j);
    NodeInBlock(m, fl, j, fl[j].size + fl[j + 1].size, AddrAt(fl, j + 2));
    MergeIndex(fl, j, 0);
    forall k | 0 <= k < |l| ensures NodeAt(MergeIn(m, fl, j), l, k) {
      MergeInNode(m, head, fl, j, k);
    }
  }

  lemma MergeInNode(m: Bytes, head: nat, fl: seq<Block>, j: nat, k: nat)
    requires j + 1 < |fl| && Ordered(fl) && Linked(m, head, fl) && fl[j].End() == fl[j + 1].addr && k < |fl| - 1
    ensures NodeAt(MergeIn(m, fl, j), Merge(fl, j), k)
  {
    hide Word, WriteWord, Merge, AddrAt, Ordered, MergeIn;
    MergeNext(fl, j, k);
    if k == j {
      MergedNode(m, fl, j);
    } else {
      var o := if k < j then k else k + 1;
      assert NodeAt(m, fl, o);
      MergeKeeps(m, fl, j, o);
    }
  }

  // Block k of the merged list, and the one after it.
  lemma MergeNext(fl: seq<Block>, j: nat, k: nat)
    requires j + 1 < |fl| && Ordered(fl) && fl[j].End() == fl[j + 1].addr && k < |fl| - 1
    ensures |Merge(fl, j)| == |fl| - 1 && Merge(fl, j)[k].Sound()
    ensures Merge(fl, j)[k] ==
      if k < j then fl[k] else if k == j then Block(fl[j].addr, fl[j].size + fl[j + 1].size) else fl[k + 1]
    ensures AddrAt(Merge(fl, j), k + 1) == AddrAt(fl, if k < j then k + 1 else k + 2)
  {
    MergeOrdered(fl, j);
    MergeIndex(fl, j, k);
    if k + 1 < |fl| - 1 {
      MergeIndex(fl, j, k + 1);
    }
    hide Merge;
  }

  lemma MergedNode(m: Bytes, fl: seq<Block>, j: nat)
    requires j + 1 < |fl| && Ordered(fl) && fl[j].End() == fl[j + 1].addr
    ensures Word(MergeIn(m, fl, j), fl[j].addr) == fl[j].size + fl[j + 1].size
    ensures Word(MergeIn(m, fl, j), fl[j].addr + 8) == AddrAt(fl, j + 2)
  {
    hide Word, WriteWord;
    AddressFits(fl, j + 2);
    assert fl[j].Sound() && fl[j + 1].Sound();
    WriteNode(m, fl[j], fl[j].size + fl[j + 1].size, AddrAt(fl, j + 2));
  }

  lemma MergeKeeps(m: Bytes, fl: seq<Block>, j: nat, o: nat)
    requires j + 1 < |fl| && Ordered(fl) && o < |fl| && o != j && fl[o].Sound()
    ensures Word(MergeIn(m, fl, j), fl[o].addr) == Word(m, fl[o].addr)
    ensures Word(MergeIn(m, fl, j), fl[o].addr + 8) == Word(m, fl[o].addr + 8)
  {
    hide Word, WriteWord;
    Apart(fl, j, o);
    OtherNodes(m, fl[j], fl[j].size + fl[j + 1].size, AddrAt(fl, j + 2), fl[o]);
  }

  lemma RemoveIndex(fl: seq<Block>, i: nat, k: nat)
    requires i < |fl| && k < |fl| - 1
    ensures |Remove(fl, i)| == |fl| - 1
    ensures Remove(fl, i)[k] == if k < i then fl[k] else fl[k + 1]
  {
  }

  lemma RemoveNext(fl: seq<Block>, i: nat, k: nat)
    requires i < |fl| && k < |fl| - 1
    ensures |Remove(fl, i)| == |fl| - 1
    ensures Remove(fl, i)[k] == fl[if k < i then k else k + 1]
    ensures AddrAt(Remove(fl, i), k + 1) == AddrAt(fl, if k + 1 < i then k + 1 else k + 2)
  {
    RemoveIndex(fl, i, k);
    if k + 1 < |fl| - 1 {
      RemoveIndex(fl, i, k + 1);
    }
    hide Remove;
  }

  lemma RemoveOrdered(fl: seq<Block>, i: nat)
    requires i < |fl|
    ensures Ordered(fl) ==> Ordered(Remove(fl, i))
    ensures Gapped(fl) ==> Gapped(Remove(fl, i))
  {
    var l := Remove(fl, i);
    if |fl| > 1 {
      RemoveIndex(fl, i, 0);
    }
    hide Remove;
    assert |l| == |fl| - 1 by { RemoveLength(fl, i); }
    forall a | 0 <= a < |l| ensures l[a] == fl[if a < i then a else a + 1] {
      RemoveIndex(fl, i, a);
    }
  }

  lemma RemoveLength(fl: seq<Block>, i: nat)
    requires i < |fl|
    ensures |Remove(fl, i)| == |fl| - 1
  {
  }

  /** Taking block i out of the list leaves a gap there, before any pointer is changed. */
  lemma RemoveLeavesGap(m: Bytes, head: nat, fl: seq<Block>, i: nat)
    requires i < |fl| && Linked(m, head, fl)
    ensures LinkedBut(m, head, Remove(fl, i), i)
  {
    var l := Remove(fl, i);
    RemoveLength(fl, i);
    if |l| > 0 {
      RemoveIndex(fl, i, 0);
    }
    hide Remove, Word;
    forall k | 0 <= k < |l| ensures NodeBut(m, l, k, i) {
      RemoveNext(fl, i, k);
      assert NodeAt(m, fl, if k < i then k else k + 1);
    }
    if i != 0 {
      assert |l| > 0;
    }
  }

  /** Pointing the node before the gap at what comes after it closes the gap. */
  ghost function Close(m: Bytes, fl: seq<Block>, gap: nat): Bytes
    requires gap <= |fl| && Ordered(fl)
  {
    if gap == 0 then m else WriteWord(m, fl[gap - 1].addr + 8, AddrAt(fl, gap))
  }

  lemma CloseLinks(m: Bytes, head: nat, fl: seq<Block>, gap: nat)
    requires gap <= |fl| && Ordered(fl) && LinkedBut(m, head, fl, gap)
    ensures Linked(Close(m, fl, gap), if gap == 0 then AddrAt(fl, 0) else head, fl)
    ensures SameOutside(m, Close(m, fl, gap), fl)
  {
    if gap > 0 {
      assert fl[gap - 1].Sound();
      WordInBlock(m, fl[gap - 1].addr + 8, AddrAt(fl, gap), fl, gap - 1);
    }
    hide WriteWord, InFree, AddrAt, Word;
    forall k | 0 <= k < |fl| ensures NodeAt(Close(m, fl, gap), fl, k) {
      CloseNode(m, fl, gap, k);
    }
  }

  lemma CloseNode(m: Bytes, fl: seq<Block>, gap: nat, k: nat)
    requires gap <= |fl| && Ordered(fl) && k < |fl| && NodeBut(m, fl, k, gap)
    ensures NodeAt(Close(m, fl, gap), fl, k)
  {
    AddressFits(fl, gap);
    if gap > 0 && k != gap - 1 {
      Apart(fl, gap - 1, k);
    }
    hide Word, WriteWord, AddrAt, Ordered;
    if gap > 0 {
      RedirectOne(m, fl[gap - 1], AddrAt(fl, gap), fl[k]);
    }
  }

  /** A word written outside the list's blocks does not disturb the list. */
  lemma WriteApart(m: Bytes, head: nat, fl: seq<Block>, a: nat, v: nat)
    requires Linked(m, head, fl) && Inside(a, 8)
    requires forall k :: 0 <= k < |fl| ==> a + 8 <= fl[k].addr || fl[k].End() <= a
    ensures Linked(WriteWord(m, a, v), head, fl)
  {
    hide Word, WriteWord, AddrAt;
    forall k | 0 <= k < |fl| ensures NodeAt(WriteWord(m, a, v), fl, k) {
      assert NodeAt(m, fl, k);
      WordElsewhere(m, a, v, fl[k].addr, 8);
      WordElsewhere(m, a, v, fl[k].addr + 8, 8);
    }
  }
}
