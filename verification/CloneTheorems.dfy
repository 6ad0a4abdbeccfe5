/** What a clone means: it translates like its source, to fresh pages of its own with the same contents. */
module CloneTheorems {
  import opened Pte
  import opened PageTree
  import opened PhysMem
  import opened VmmSpec
  import opened VmmMap
  import opened CloneSpec
  import opened VmmClone

  lemma CopyOfSlot(m: Mem, t: Pfn, n: Mem, c: Pfn, i: nat, k: nat)
    requires k >= 1 && i < ENTRIES && IsCopy(m, t, n, c, k)
    ensures var e, f := m[t][i], n[c][i];
      if Present(e) then
        && Present(f) && f == Entry(Frame(f), e & LOW_FLAGS)
        && IsCopy(m, Frame(e), n, Frame(f), k - 1)
        && (k == 1 ==> n[Frame(f)] == m[Frame(e)])
      else f == 0
  {
    hide Present, Frame, Entry;
    assert IsCopySlot(m, t, n, c, i, k);
  }

  /** Leaf entry f, in memory n, is a copy of leaf entry e in memory m. */
  ghost predicate LeafCopy(m: Mem, e: bv64, n: Mem, f: bv64) {
    if Present(e) then Present(f) && f == Entry(Frame(f), e & LOW_FLAGS) && n[Frame(f)] == m[Frame(e)]
    else f == 0
  }

  /** A copy maps the same pages, with the low 12 flag bits and equal page contents. */
  lemma {:induction false} CopyWalk(m: Mem, t: Pfn, n: Mem, c: Pfn, k: nat, p: Path)
    requires 1 <= k <= 4 && p.Valid() && IsCopy(m, t, n, c, k)
    ensures LeafCopy(m, Walk(m, t, k, p), n, Walk(n, c, k, p))
    decreases k
  {
    var i := p.At(k);
    CopyOfSlot(m, t, n, c, i, k);
    ZeroAbsent();
    hide Present, Frame, Entry, IsCopy;
    if k > 1 && Present(m[t][i]) {
      hide LeafCopy;
      CopyWalk(m, Frame(m[t][i]), n, Frame(n[c][i]), k - 1, p);
    }
  }

  /** A mapped frame belongs to the tree, and in a tree that owns its leaves it is not one of the tables. */
  lemma {:induction false} LeafOwned(m: Mem, t: Pfn, k: nat, p: Path)
    requires 1 <= k <= 4 && p.Valid() && Present(Walk(m, t, k, p))
    ensures Frame(Walk(m, t, k, p)) in Foot(m, t, k, true)
    ensures IsTree(m, t, k, true) ==> Frame(Walk(m, t, k, p)) !in Foot(m, t, k, false)
    decreases k
  {
    hide Present, Frame;
    ZeroAbsent();
    var i := p.At(k);
    var f := Frame(Walk(m, t, k, p));
    if k > 1 {
      LeafOwned(m, Frame(m[t][i]), k - 1, p);
    } else {
      HeadInFoot(m, f, 0);
    }
    assert f in SlotFoot(m, t, i, k, true);
    if IsTree(m, t, k, true) {
      TreeParts(m, t, i, k, true);
      forall j: nat | j < ENTRIES ensures f !in SlotFoot(m, t, j, k, false) {
        SlotTables(m, t, j, k);
      }
    }
  }

  lemma SlotTables(m: Mem, t: Pfn, j: nat, k: nat)
    requires j < ENTRIES && k >= 1
    ensures SlotFoot(m, t, j, k, false) <= SlotFoot(m, t, j, k, true)
  {
    hide Present, Frame;
    if Present(m[t][j]) {
      TablesInFoot(m, Frame(m[t][j]), k - 1);
    }
  }

  /** In a tree that owns its leaves, two mapped pages have different frames. */
  lemma {:induction false} LeavesDistinct(m: Mem, t: Pfn, k: nat, p: Path, q: Path)
    requires 1 <= k <= 4 && p.Valid() && q.Valid() && IsTree(m, t, k, true)
    requires Present(Walk(m, t, k, p)) && Present(Walk(m, t, k, q)) && !Agree(p, q, 1, k)
    ensures Frame(Walk(m, t, k, p)) != Frame(Walk(m, t, k, q))
    decreases k
  {
    hide Present, Frame;
    ZeroAbsent();
    var i, j := p.At(k), q.At(k);
    TreeParts(m, t, i, k, true);
    if i != j {
      LeafInSlot(m, t, k, p);
      LeafInSlot(m, t, k, q);
    } else {
      LeavesDistinct(m, Frame(m[t][i]), k - 1, p, q);
    }
  }

  lemma LeafInSlot(m: Mem, t: Pfn, k: nat, p: Path)
    requires 1 <= k <= 4 && p.Valid() && Present(Walk(m, t, k, p))
    ensures Frame(Walk(m, t, k, p)) in SlotFoot(m, t, p.At(k), k, true)
  {
    hide Present, Frame;
    ZeroAbsent();
    if k > 1 {
      LeafOwned(m, Frame(m[t][p.At(k)]), k - 1, p);
    } else {
      HeadInFoot(m, Frame(Walk(m, t, k, p)), 0);
    }
  }

  /** What a clone leads to on path p: what its source does, in a fresh frame with the same contents. */
  ghost predicate CopiedAt(s0: Phys, s1: Phys, root: Pfn, c: Pfn, p: Path)
    requires p.Valid()
  {
    var e, f := Walk(s0.mem, root, 4, p), Walk(s1.mem, c, 4, p);
    && Walk(s1.mem, root, 4, p) == e
    && if Present(e) then
         && Present(f) && f == Entry(Frame(f), e & LOW_FLAGS)
         && s1.mem[Frame(f)] == s0.mem[Frame(e)] == s1.mem[Frame(e)]
         && Frame(f) in s0.free && Frame(f) !in s1.free && Frame(f) !in Foot(s1.mem, c, 4, false)
       else f == 0
  }

  lemma CloneAtPath(s0: Phys, s1: Phys, root: Pfn, child: Pfn, p: Path)
    requires Cloned(s0, s1, root, child) && Source(s0.mem, s0, root, 4) && p.Valid()
    ensures CopiedAt(s0, s1, root, TopLevel(s1.mem, child), p)
  {
    hide Present, Frame, Entry, Foot, IsTree, IsCopy, Walk, TopLevel, Need;
    var c := TopLevel(s1.mem, child);
    CopyWalk(s0.mem, root, s1.mem, c, 4, p);
    TablesInFoot(s0.mem, root, 4);
    WalkFrame(s0.mem, s1.mem, root, 4, p);
    if Present(Walk(s0.mem, root, 4, p)) {
      LeafOwned(s0.mem, root, 4, p);
      LeafOwned(s1.mem, c, 4, p);
    }
  }

  /** A clone translates exactly the pages its source translates, each to a fresh frame of its own with the same
      contents and the source's low 12 flag bits, and the source is unchanged. */
  lemma CloneIsDeepCopy(s0: Phys, s1: Phys, root: Pfn, child: Pfn, va: bv64)
    requires Cloned(s0, s1, root, child) && Source(s0.mem, s0, root, 4)
    ensures CopiedAt(s0, s1, root, TopLevel(s1.mem, child), PathOf(va))
  {
    hide Cloned, Source, CopiedAt, TopLevel, PathOf;
    CloneAtPath(s0, s1, root, child, PathOf(va));
  }

  /** Two different pages of a clone never share a frame. */
  lemma CloneFramesDistinct(s0: Phys, s1: Phys, root: Pfn, child: Pfn, x: bv64, y: bv64)
    requires Cloned(s0, s1, root, child) && PageOf(x) != PageOf(y)
    requires var c := TopLevel(s1.mem, child);
      Present(Walk(s1.mem, c, 4, PathOf(x))) && Present(Walk(s1.mem, c, 4, PathOf(y)))
    ensures var c := TopLevel(s1.mem, child);
      Frame(Walk(s1.mem, c, 4, PathOf(x))) != Frame(Walk(s1.mem, c, 4, PathOf(y)))
  {
    hide Present, Frame, PathOf, PageOf, Foot, IsTree, IsCopy, Walk, TopLevel, Need, Agree;
    PathIsPage(x, y);
    AgreeIsEqual(PathOf(x), PathOf(y));
    LeavesDistinct(s1.mem, TopLevel(s1.mem, child), 4, PathOf(x), PathOf(y));
  }

  /** Freeing a clone returns every page that cloning took, except the one that holds the pagemap_t. */
  lemma CloneThenFree(s0: Phys, s1: Phys, s2: Phys, root: Pfn, child: Pfn)
    requires Cloned(s0, s1, root, child) && Discarded(s1, s2, TopLevel(s1.mem, child))
    ensures s2.free == s0.free - {child} && child in s0.free
    ensures forall q: Pfn :: q !in s0.free ==> s2.mem[q] == s0.mem[q]
  {
    hide Foot, IsTree, IsCopy, TopLevel, Need, Owned;
    assert child in s0.free - s1.free;
    forall q | q in Foot(s1.mem, TopLevel(s1.mem, child), 4, true) ensures q in s0.free {
      assert q in s0.free - s1.free;
    }
  }

  lemma HighFlagBits(e: bv64)
    ensures e & LOW_FLAGS == Flags(e) <==> OnlyLowFlags(e)
  {
  }

  lemma NoExecuteBit(b: bv40, e: bv64)
    ensures WritableAndExecutable(AddrBits(b) | (e & LOW_FLAGS)) <==> Writable(e)
  {
  }

  lemma CopiedFlags(f: Pfn, e: bv64)
    ensures Flags(Entry(f, e & LOW_FLAGS)) == Flags(e) <==> OnlyLowFlags(e)
    ensures WritableAndExecutable(Entry(f, e & LOW_FLAGS)) <==> Writable(e)
  {
    LowFlags(e);
    HighFlagBits(e);
    var b := EntryIsJoin(f, e & LOW_FLAGS);
    NoExecuteBit(b, e);
    hide Flags, Entry, AddrBits, WritableAndExecutable, Writable, OnlyLowFlags, Present;
    EntryFlags(f, e & LOW_FLAGS);
  }

  lemma LeafFlags(m: Mem, e: bv64, n: Mem, f: bv64)
    requires LeafCopy(m, e, n, f) && Present(e)
    ensures Flags(f) == Flags(e) <==> OnlyLowFlags(e)
    ensures WritableAndExecutable(f) <==> Writable(e)
  {
    hide Present, Frame, Entry, Flags, WritableAndExecutable, Writable, OnlyLowFlags;
    CopiedFlags(Frame(f), e);
  }

  /** A cloned leaf keeps its flags exactly if the source leaf has none above the low 12, and the clone may execute
      a page it can write exactly if the source can write it: the no-execute bit is lost. */
  lemma CloneDropsNoExecute(s0: Phys, s1: Phys, root: Pfn, child: Pfn, va: bv64, e: bv64, f: bv64)
    requires Cloned(s0, s1, root, child) && e == Walk(s0.mem, root, 4, PathOf(va)) && Present(e)
    requires f == Walk(s1.mem, TopLevel(s1.mem, child), 4, PathOf(va))
    ensures Flags(f) == Flags(e) <==> OnlyLowFlags(e)
    ensures WritableAndExecutable(f) <==> Writable(e)
  {
    hide Present, Frame, Entry, PathOf, Foot, IsTree, IsCopy, Walk, TopLevel, Need, Flags, WritableAndExecutable;
    hide Writable, OnlyLowFlags, LeafCopy;
    CopyWalk(s0.mem, root, s1.mem, TopLevel(s1.mem, child), 4, PathOf(va));
    LeafFlags(s0.mem, e, s1.mem, f);
  }
}
