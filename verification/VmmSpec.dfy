/** Mapping and unmapping as functions on memory, and what they do to the tree of tables. */
module VmmSpec {
  import opened Machine
  import opened Pte
  import opened PageTree
  import opened PhysMem

  datatype NextTable = NoTable | Table(frame: Pfn)

  /** One step down, making the table if asked to. */
  ghost function NextLevel(s: Phys, t: Pfn, i: nat, allocate: bool, flags: bv64): (Phys, NextTable)
    requires i < ENTRIES
  {
    if Present(s.mem[t][i]) then (s, Table(Frame(s.mem[t][i])))
    else if !allocate then (s, NoTable)
    else
      var (s1, f) := Allocated(s);
      if f == 0 then (s1, NoTable)
      else (Phys(Write(s1.mem[f := ZeroPage()], t, i, Entry(f, if flags != 0 then flags else PRESENT | WRITABLE)),
            s1.free, s1.top), Table(f))
  }

  /** Walk down from the level-k table t along p, making missing tables, and write the leaf entry e. */
  ghost function Plant(s: Phys, t: Pfn, k: nat, p: Path, flags: bv64, e: bv64): (Phys, bool)
    requires 1 <= k <= 4 && p.Valid()
    decreases k
  {
    if k == 1 then (Phys(Write(s.mem, t, p.At(1), e), s.free, s.top), true)
    else
      var (s1, next) := NextLevel(s, t, p.At(k), true, flags);
      if next.NoTable? then (s1, false) else Plant(s1, next.frame, k - 1, p, flags, e)
  }

  /** Clear the leaf entry of p, then give back each table on the way up that this left empty.
      The flag says that a slot of t was cleared, so that t itself may now be empty. */
  ghost function Prune(s: Phys, t: Pfn, k: nat, p: Path): (Phys, bool)
    requires 1 <= k <= 4 && p.Valid()
    decreases k
  {
    var i := p.At(k);
    if k == 1 then (Phys(Write(s.mem, t, i, 0), s.free, s.top), true)
    else
      var c := Frame(s.mem[t][i]);
      var (s1, check) := Prune(s, c, k - 1, p);
      Unlinked(s1, check, t, i, c)
  }

  /** If table c, in slot i of t, has just become empty: clear the slot and free the table. */
  ghost function Unlinked(s: Phys, check: bool, t: Pfn, i: nat, c: Pfn): (Phys, bool)
    requires i < ENTRIES
  {
    if check && s.mem[c] == ZeroPage() then (Released(Phys(Write(s.mem, t, i, 0), s.free, s.top), c * PAGE_SIZE), true)
    else (s, false)
  }

  // Frames the allocator can hand out.
  ghost predicate Sane(s: Phys) {
    s.top < BITMAP_PAGES && forall f :: f in s.free ==> 0 < f <= s.top
  }

  /** The level-k table t heads a tree whose tables are all allocated. */
  ghost predicate Owned(s: Phys, t: Pfn, k: nat, leaves: bool) {
    && IsTree(s.mem, t, k, leaves)
    && forall f :: f in Foot(s.mem, t, k, leaves) ==> f !in s.free && 0 < f <= s.top
  }

  /** No table below t is empty. */
  ghost predicate NoEmpty(m: Mem, t: Pfn, k: nat)
    decreases k
  {
    k <= 1 ||
    forall i: nat :: i < ENTRIES && Present(m[t][i]) ==>
      m[Frame(m[t][i])] != ZeroPage() && NoEmpty(m, Frame(m[t][i]), k - 1)
  }

  // Flags for a table entry: present, and clear of the address bits.
  predicate TableFlags(flags: bv64) {
    flags != 0 && Present(flags) && Flags(flags) == flags
  }

  lemma ZeroTree(m: Mem, t: Pfn, k: nat)
    requires 1 <= k && m[t] == ZeroPage()
    ensures IsTree(m, t, k, false) && Foot(m, t, k, false) == {t}
  {
  }

  lemma ZeroWalk(m: Mem, t: Pfn, k: nat, p: Path)
    requires 1 <= k <= 4 && m[t] == ZeroPage() && p.Valid()
    ensures Walk(m, t, k, p) == 0
  {
  }

  lemma EntryNotZero(f: Pfn, flags: bv64)
    requires TableFlags(flags)
    ensures Present(Entry(f, flags)) && Frame(Entry(f, flags)) == f
  {
    hide Entry, Frame, Present, Flags;
    EntryFrame(f, flags);
    EntryFlags(f, flags);
  }

  /** The state in which a fresh frame f hangs in slot i of t. */
  ghost predicate Linked(s: Phys, s1: Phys, t: Pfn, i: nat, f: Pfn)
    requires i < ENTRIES
  {
    && f in s.free && 0 < f <= s.top
    && s1.free == s.free - {f} && s1.top == s.top
    && Present(s1.mem[t][i]) && Frame(s1.mem[t][i]) == f
    && (forall j: nat :: j < ENTRIES && j != i ==> s1.mem[t][j] == s.mem[t][j])
    && (forall q: Pfn :: q != t && q != f ==> s1.mem[q] == s.mem[q])
  }

  lemma NextLevelCases(s: Phys, t: Pfn, i: nat, flags: bv64)
    requires i < ENTRIES && TableFlags(flags) && t !in s.free && Sane(s)
    ensures var (s1, next) := NextLevel(s, t, i, true, flags);
      if Present(s.mem[t][i]) then s1 == s && next == Table(Frame(s.mem[t][i]))
      else if s.free == {} then s1 == s && next == NoTable
      else next.Table? && Linked(s, s1, t, i, next.frame) && s1.mem[next.frame] == ZeroPage()
  {
    hide Present, Frame, Entry, Flags;
    if !Present(s.mem[t][i]) && s.free != {} {
      EntryNotZero(Lowest(s.free), flags);
    }
  }

  /** What planting does to the tree: it grows by exactly the frames it took, and nothing else changes. */
  ghost predicate Grown(s: Phys, s1: Phys, t: Pfn, k: nat, leaves: bool) {
    && s1.free <= s.free && s1.top == s.top
    && Owned(s1, t, k, leaves)
    && Foot(s1.mem, t, k, leaves) == Foot(s.mem, t, k, leaves) + (s.free - s1.free)
    && forall q: Pfn :: q !in Foot(s1.mem, t, k, leaves) ==> s1.mem[q] == s.mem[q]
  }

  /** f is the table in slot i of t: it was there already, or s1 is s with an empty one just linked. */
  ghost predicate Child(s: Phys, s1: Phys, t: Pfn, i: nat, k: nat, f: Pfn, leaves: bool)
    requires k >= 1 && i < ENTRIES
  {
    || (Present(s.mem[t][i]) && s1 == s && f == Frame(s.mem[t][i]))
    || (s.mem[t][i] == 0 && Linked(s, s1, t, i, f) && Foot(s1.mem, f, k - 1, leaves) == {f}
        && (k >= 2 ==> s1.mem[f] == ZeroPage()))
  }

  lemma Descend(s: Phys, t: Pfn, i: nat, k: nat, flags: bv64)
    requires 2 <= k && i < ENTRIES && TableFlags(flags)
    requires Owned(s, t, k, false) && Sane(s)
    ensures var (s1, next) := NextLevel(s, t, i, true, flags);
      if next.NoTable? then s1 == s && s.free == {} && !Present(s.mem[t][i])
      else Child(s, s1, t, i, k, next.frame, false) && Owned(s1, next.frame, k - 1, false) && Sane(s1)
  {
    hide Present, Frame, TableFlags, IsTree, SlotFoot, Foot;
    TreeParts(s.mem, t, i, k, false);
    NextLevelCases(s, t, i, flags);
    var (s1, next) := NextLevel(s, t, i, true, flags);
    hide NextLevel;
    if next.Table? && !Present(s.mem[t][i]) {
      ZeroTree(s1.mem, next.frame, k - 1);
    }
  }

  // Growth of the subtree in slot i, linked just before if it is new, is growth of the whole tree.
  lemma GrowUp(s: Phys, s1: Phys, s2: Phys, t: Pfn, i: nat, k: nat, f: Pfn, leaves: bool)
    requires k >= 1 && i < ENTRIES && Owned(s, t, k, leaves)
    requires Child(s, s1, t, i, k, f, leaves) && Grown(s1, s2, f, k - 1, leaves)
    ensures Grown(s, s2, t, k, leaves) && s2.mem[t] == s1.mem[t]
  {
    hide Present, Frame, IsTree, Foot, SlotFoot;
    TreeParts(s.mem, t, i, k, leaves);
    NoSlot(s.mem, t, i, k, leaves);
    assert s2.mem[t] == s1.mem[t];
    NewParent(s2.mem, s2.mem, t, i, k, leaves);
    SlotUpdate(s.mem, s2.mem, t, i, k, leaves);
  }

  // Paths through slot i now go through f as it has become; the others go where they did.
  lemma WalkUp(s: Phys, s1: Phys, s2: Phys, t: Pfn, i: nat, k: nat, f: Pfn, q: Path)
    requires 2 <= k <= 4 && i < ENTRIES && q.Valid() && Owned(s, t, k, false)
    requires Child(s, s1, t, i, k, f, false) && Grown(s1, s2, f, k - 1, false)
    ensures Walk(s2.mem, t, k, q) == if q.At(k) == i then Walk(s2.mem, f, k - 1, q) else Walk(s.mem, t, k, q)
    ensures q.At(k) == i ==> Walk(s.mem, t, k, q) == Walk(s1.mem, f, k - 1, q)
  {
    hide Present, Frame, IsTree, Foot, SlotFoot;
    GrowUp(s, s1, s2, t, i, k, f, false);
    var j := q.At(k);
    if j == i {
      NoSlot(s.mem, t, i, k, false);
      if !Present(s.mem[t][i]) {
        ZeroWalk(s1.mem, f, k - 1, q);
      }
    } else if Present(s.mem[t][j]) {
      TreeParts(s.mem, t, i, k, false);
      TreeParts(s.mem, t, j, k, false);
      WalkFrame(s.mem, s2.mem, Frame(s.mem[t][j]), k - 1, q);
    }
  }

  lemma NoSlot(m: Mem, t: Pfn, i: nat, k: nat, leaves: bool)
    requires k >= 1 && i < ENTRIES
    ensures m[t][i] == 0 ==> !Present(m[t][i]) && SlotFoot(m, t, i, k, leaves) == {}
  {
  }

  lemma {:induction false} PlantGrows(s: Phys, t: Pfn, k: nat, p: Path, flags: bv64, e: bv64)
    requires 1 <= k <= 4 && p.Valid() && TableFlags(flags) && Present(e)
    requires Owned(s, t, k, false) && Sane(s)
    ensures Grown(s, Plant(s, t, k, p, flags, e).0, t, k, false)
    decreases k
  {
    hide Present, Frame, TableFlags, IsTree, Foot, SlotFoot, NextLevel;
    var i := p.At(k);
    var s2 := Plant(s, t, k, p, flags, e).0;
    if k == 1 {
      TreeParts(s.mem, t, i, k, false);
      LeafWrite(s.mem, s2.mem, t, i);
    } else {
      Descend(s, t, i, k, flags);
      var (s1, next) := NextLevel(s, t, i, true, flags);
      if next.Table? {
        PlantGrows(s1, next.frame, k - 1, p, flags, e);
        GrowUp(s, s1, s2, t, i, k, next.frame, false);
      }
    }
  }

  /** Afterwards p leads to the new entry, if there was memory for the tables, and every other path where it did. */
  lemma {:induction false} PlantWalk(s: Phys, t: Pfn, k: nat, p: Path, flags: bv64, e: bv64, q: Path)
    requires 1 <= k <= 4 && p.Valid() && q.Valid() && TableFlags(flags) && Present(e)
    requires Owned(s, t, k, false) && Sane(s)
    ensures var (s2, ok) := Plant(s, t, k, p, flags, e);
      Walk(s2.mem, t, k, q) == if ok && Agree(p, q, 1, k) then e else Walk(s.mem, t, k, q)
    decreases k
  {
    hide Present, Frame, TableFlags, IsTree, Foot, SlotFoot, NextLevel;
    var i := p.At(k);
    var (s2, ok) := Plant(s, t, k, p, flags, e);
    if k > 1 {
      Descend(s, t, i, k, flags);
      var (s1, next) := NextLevel(s, t, i, true, flags);
      if next.Table? {
        PlantWalk(s1, next.frame, k - 1, p, flags, e, q);
        PlantGrows(s1, next.frame, k - 1, p, flags, e);
        WalkUp(s, s1, s2, t, i, k, next.frame, q);
      }
    }
  }

  lemma LeafWrite(m: Mem, n: Mem, t: Pfn, i: nat)
    requires i < ENTRIES && IsTree(m, t, 1, false)
    requires (forall j: nat :: j < ENTRIES && j != i ==> n[t][j] == m[t][j]) && (n[t][i] == 0 || Present(n[t][i]))
    ensures IsTree(n, t, 1, false) && Foot(n, t, 1, false) == Foot(m, t, 1, false) == {t}
  {
    hide Present, Frame;
  }

  /** How many tables path p still lacks below the level-k table t. */
  ghost function Missing(m: Mem, t: Pfn, k: nat, p: Path): nat
    requires 1 <= k <= 4 && p.Valid()
    decreases k
  {
    if k == 1 then 0
    else if Present(m[t][p.At(k)]) then Missing(m, Frame(m[t][p.At(k)]), k - 1, p)
    else k - 1
  }

  lemma {:induction false} MissingFrame(m: Mem, n: Mem, t: Pfn, k: nat, p: Path)
    requires 1 <= k <= 4 && p.Valid()
    requires forall q: Pfn :: q in Foot(m, t, k, false) ==> n[q] == m[q]
    ensures Missing(n, t, k, p) == Missing(m, t, k, p)
    decreases k
  {
    hide Present, Frame;
    assert t in Foot(m, t, k, false);
    var e := m[t][p.At(k)];
    if k > 1 && Present(e) {
      forall q: Pfn | q in Foot(m, Frame(e), k - 1, false) ensures n[q] == m[q] {
        assert q in SlotFoot(m, t, p.At(k), k, false);
      }
      MissingFrame(m, n, Frame(e), k - 1, p);
    }
  }

  /** Mapping fails exactly when free memory cannot hold the missing tables, and takes just those if it succeeds. */
  lemma {:induction false} PlantOutcome(s: Phys, t: Pfn, k: nat, p: Path, flags: bv64, e: bv64)
    requires 1 <= k <= 4 && p.Valid() && TableFlags(flags) && Present(e)
    requires Owned(s, t, k, false) && Sane(s)
    ensures var (s2, ok) := Plant(s, t, k, p, flags, e);
      && (ok <==> Missing(s.mem, t, k, p) <= |s.free|)
      && |s2.free| == if ok then |s.free| - Missing(s.mem, t, k, p) else 0
    decreases k
  {
    hide Present, Frame, TableFlags, IsTree, Foot, SlotFoot, NextLevel;
    if k > 1 {
      Descend(s, t, p.At(k), k, flags);
      var (s1, next) := NextLevel(s, t, p.At(k), true, flags);
      if next.Table? {
        PlantOutcome(s1, next.frame, k - 1, p, flags, e);
        NoSlot(s.mem, t, p.At(k), k, false);
        if s.mem[t][p.At(k)] == 0 && k > 2 {
          ZeroMissing(s1.mem, next.frame, k - 1, p);
        }
      }
    }
  }

  lemma ZeroMissing(m: Mem, t: Pfn, k: nat, p: Path)
    requires 1 <= k <= 4 && p.Valid() && m[t] == ZeroPage()
    ensures Missing(m, t, k, p) == k - 1
  {
  }

  /** What pruning does to the tree: it shrinks by exactly the frames it gave back. */
  ghost predicate Shrunk(s: Phys, s1: Phys, t: Pfn, k: nat) {
    && s.free <= s1.free && s1.top == s.top
    && Owned(s1, t, k, false)
    && s1.free - s.free <= Foot(s.mem, t, k, false)
    && Foot(s1.mem, t, k, false) == Foot(s.mem, t, k, false) - (s1.free - s.free)
    && t !in s1.free
    && forall q: Pfn :: q !in Foot(s.mem, t, k, false) ==> s1.mem[q] == s.mem[q]
  }

  lemma {:induction false} PruneShrinks(s: Phys, t: Pfn, k: nat, p: Path)
    requires 1 <= k <= 4 && p.Valid()
    requires Owned(s, t, k, false) && Present(Walk(s.mem, t, k, p))
    ensures Shrunk(s, Prune(s, t, k, p).0, t, k)
    decreases k
  {
    hide Present, Frame, IsTree, Foot, SlotFoot, Unlinked;
    var i := p.At(k);
    var s2 := Prune(s, t, k, p).0;
    TreeParts(s.mem, t, i, k, false);
    if k == 1 {
      LeafWrite(s.mem, s2.mem, t, i);
    } else {
      var c := Frame(s.mem[t][i]);
      NoSlot(s.mem, t, i, k, false);
      PruneShrinks(s, c, k - 1, p);
      var (s1, check) := Prune(s, c, k - 1, p);
      ShrinkUp(s, s1, check, t, i, k, c);
    }
  }

  lemma ShrinkUp(s: Phys, s1: Phys, check: bool, t: Pfn, i: nat, k: nat, c: Pfn)
    requires k >= 2 && i < ENTRIES && Owned(s, t, k, false)
    requires Present(s.mem[t][i]) && c == Frame(s.mem[t][i]) && Shrunk(s, s1, c, k - 1)
    ensures Shrunk(s, Unlinked(s1, check, t, i, c).0, t, k)
  {
    hide Present, Frame, IsTree, Foot, SlotFoot;
    TreeParts(s.mem, t, i, k, false);
    if check && s1.mem[c] == ZeroPage() {
      var n := Write(s1.mem, t, i, 0);
      ZeroTree(s1.mem, c, k - 1);
      NoSlot(n, t, i, k, false);
      SlotUpdate(s.mem, n, t, i, k, false);
    } else {
      NewParent(s.mem, s1.mem, t, i, k, false);
      SlotUpdate(s.mem, s1.mem, t, i, k, false);
    }
  }

  // One level of pruning, with what is known about the level below.
  lemma PruneParts(s: Phys, t: Pfn, k: nat, p: Path)
    requires 2 <= k <= 4 && p.Valid()
    requires Owned(s, t, k, false) && Present(Walk(s.mem, t, k, p))
    ensures var i := p.At(k); var c := Frame(s.mem[t][i]); var (s1, check) := Prune(s, c, k - 1, p);
      && Present(s.mem[t][i]) && Owned(s, c, k - 1, false) && Present(Walk(s.mem, c, k - 1, p))
      && Shrunk(s, s1, c, k - 1)
      && Prune(s, t, k, p) == Unlinked(s1, check, t, i, c)
  {
    hide Present, Frame, IsTree, Foot, SlotFoot, Unlinked;
    var i := p.At(k);
    TreeParts(s.mem, t, i, k, false);
    NoSlot(s.mem, t, i, k, false);
    PruneShrinks(s, Frame(s.mem[t][i]), k - 1, p);
  }

  /** Afterwards p leads nowhere and every other path where it did. */
  lemma {:induction false} PruneWalk(s: Phys, t: Pfn, k: nat, p: Path, q: Path)
    requires 1 <= k <= 4 && p.Valid() && q.Valid()
    requires Owned(s, t, k, false) && Present(Walk(s.mem, t, k, p))
    ensures Walk(Prune(s, t, k, p).0.mem, t, k, q) == if Agree(p, q, 1, k) then 0 else Walk(s.mem, t, k, q)
    decreases k
  {
    hide Present, Frame, Unlinked, Owned, Shrunk;
    if k > 1 {
      var c := Frame(s.mem[t][p.At(k)]);
      PruneParts(s, t, k, p);
      PruneWalk(s, c, k - 1, p, q);
      var (s1, check) := Prune(s, c, k - 1, p);
      PruneUp(s, s1, check, t, p.At(k), k, c, q);
    }
  }

  lemma PruneUp(s: Phys, s1: Phys, check: bool, t: Pfn, i: nat, k: nat, c: Pfn, q: Path)
    requires 2 <= k <= 4 && i < ENTRIES && q.Valid() && Owned(s, t, k, false)
    requires Present(s.mem[t][i]) && c == Frame(s.mem[t][i]) && Shrunk(s, s1, c, k - 1)
    ensures Walk(Unlinked(s1, check, t, i, c).0.mem, t, k, q) ==
      if q.At(k) == i then Walk(s1.mem, c, k - 1, q) else Walk(s.mem, t, k, q)
    ensures q.At(k) == i ==> Walk(s.mem, t, k, q) == Walk(s.mem, c, k - 1, q)
  {
    hide Present, Frame, IsTree, Foot, SlotFoot;
    TreeParts(s.mem, t, i, k, false);
    var n := Unlinked(s1, check, t, i, c).0.mem;
    assert forall j: nat :: j < ENTRIES && j != i ==> n[t][j] == s.mem[t][j];
    if q.At(k) == i {
      NoSlot(n, t, i, k, false);
      if check && s1.mem[c] == ZeroPage() {
        ZeroWalk(s1.mem, c, k - 1, q);
      }
    } else {
      OtherSlotWalk(s.mem, n, t, i, k, q);
    }
  }

  // A path through another slot does not notice.
  lemma OtherSlotWalk(m: Mem, n: Mem, t: Pfn, i: nat, k: nat, q: Path)
    requires 2 <= k <= 4 && i < ENTRIES && q.Valid() && q.At(k) != i && IsTree(m, t, k, false)
    requires n[t][q.At(k)] == m[t][q.At(k)]
    requires forall f: Pfn :: f in Foot(m, t, k, false) && f != t && f !in SlotFoot(m, t, i, k, false) ==> n[f] == m[f]
    ensures Walk(n, t, k, q) == Walk(m, t, k, q)
  {
    hide Present, Frame, IsTree, Foot, SlotFoot;
    var j := q.At(k);
    TreeParts(m, t, i, k, false);
    TreeParts(m, t, j, k, false);
    if Present(m[t][j]) {
      WalkFrame(m, n, Frame(m[t][j]), k - 1, q);
    }
  }

  // No table below slot i of t, or t's child there, is empty.
  lemma {:induction false} NoEmptyFrame(m: Mem, n: Mem, t: Pfn, k: nat)
    requires forall f :: f in Foot(m, t, k, false) ==> n[f] == m[f]
    ensures NoEmpty(n, t, k) == NoEmpty(m, t, k)
    decreases k
  {
    hide Present, Frame;
    if k > 1 {
      assert t in Foot(m, t, k, false);
      forall i: nat | i < ENTRIES && Present(m[t][i])
        ensures n[Frame(m[t][i])] == m[Frame(m[t][i])]
          && NoEmpty(n, Frame(m[t][i]), k - 1) == NoEmpty(m, Frame(m[t][i]), k - 1)
      {
        var c := Frame(m[t][i]);
        forall f | f in Foot(m, c, k - 1, false) ensures n[f] == m[f] {
          assert f in SlotFoot(m, t, i, k, false);
        }
        assert c in Foot(m, c, k - 1, false);
        NoEmptyFrame(m, n, c, k - 1);
      }
    }
  }

  // Emptiness below t after a change confined to slot i.
  lemma NoEmptySlot(m: Mem, n: Mem, t: Pfn, i: nat, k: nat)
    requires k >= 2 && i < ENTRIES && IsTree(m, t, k, false) && NoEmpty(m, t, k)
    requires forall j: nat :: j < ENTRIES && j != i ==> n[t][j] == m[t][j]
    requires forall j: nat, f: Pfn :: j < ENTRIES && j != i && f in SlotFoot(m, t, j, k, false) ==> n[f] == m[f]
    requires Present(n[t][i]) ==> n[Frame(n[t][i])] != ZeroPage() && NoEmpty(n, Frame(n[t][i]), k - 1)
    ensures NoEmpty(n, t, k)
  {
    hide Present, Frame, IsTree, Foot;
    forall j: nat | j < ENTRIES && j != i && Present(m[t][j])
      ensures n[Frame(m[t][j])] != ZeroPage() && NoEmpty(n, Frame(m[t][j]), k - 1)
    {
      var c := Frame(m[t][j]);
      ChildInSlot(m, t, j, k);
      NoEmptyFrame(m, n, c, k - 1);
    }
  }

  lemma ChildInSlot(m: Mem, t: Pfn, j: nat, k: nat)
    requires k >= 2 && j < ENTRIES && Present(m[t][j])
    ensures SlotFoot(m, t, j, k, false) == Foot(m, Frame(m[t][j]), k - 1, false)
    ensures Frame(m[t][j]) in SlotFoot(m, t, j, k, false)
  {
    hide Present, Frame;
  }

  /** A mapping that succeeds leaves no table empty. */
  lemma {:induction false} PlantNoEmpty(s: Phys, t: Pfn, k: nat, p: Path, flags: bv64, e: bv64)
    requires 1 <= k <= 4 && p.Valid() && TableFlags(flags) && Present(e)
    requires Owned(s, t, k, false) && Sane(s) && NoEmpty(s.mem, t, k)
    ensures var (s2, ok) := Plant(s, t, k, p, flags, e);
      ok ==> NoEmpty(s2.mem, t, k) && s2.mem[t] != ZeroPage()
    decreases k
  {
    hide Present, Frame, TableFlags, IsTree, Foot, SlotFoot, NextLevel;
    var i := p.At(k);
    var (s2, ok) := Plant(s, t, k, p, flags, e);
    if k == 1 {
      assert s2.mem[t][i] == e;
      NoSlot(s2.mem, t, i, 1, false);
    } else {
      Descend(s, t, i, k, flags);
      var (s1, next) := NextLevel(s, t, i, true, flags);
      if next.Table? && ok {
        NoEmptyDown(s, s1, t, i, k, next.frame);
        PlantNoEmpty(s1, next.frame, k - 1, p, flags, e);
        PlantGrows(s1, next.frame, k - 1, p, flags, e);
        hide Plant, NoEmpty, Grown, Child, Owned;
        NoEmptyGrown(s, s1, s2, t, i, k, next.frame);
      }
    }
  }

  // A subtree without empty tables that has grown in slot i leaves the whole tree without any.
  lemma NoEmptyGrown(s: Phys, s1: Phys, s2: Phys, t: Pfn, i: nat, k: nat, f: Pfn)
    requires 2 <= k && i < ENTRIES && Owned(s, t, k, false) && NoEmpty(s.mem, t, k)
    requires Child(s, s1, t, i, k, f, false) && Grown(s1, s2, f, k - 1, false)
    requires NoEmpty(s2.mem, f, k - 1) && s2.mem[f] != ZeroPage()
    ensures NoEmpty(s2.mem, t, k) && s2.mem[t] != ZeroPage()
  {
    hide Present, Frame, IsTree, Foot, SlotFoot;
    GrowUp(s, s1, s2, t, i, k, f, false);
    TreeParts(s.mem, t, i, k, false);
    NoEmptySlot(s.mem, s2.mem, t, i, k);
    NoSlot(s2.mem, t, i, k, false);
  }

  lemma NoEmptyDown(s: Phys, s1: Phys, t: Pfn, i: nat, k: nat, f: Pfn)
    requires k >= 2 && i < ENTRIES && NoEmpty(s.mem, t, k) && Child(s, s1, t, i, k, f, false)
    ensures NoEmpty(s1.mem, f, k - 1)
    ensures s.mem[t][i] != 0 ==> s.mem[f] != ZeroPage()
  {
    hide Foot, Frame;
  }

  // A table none of whose slots was cleared still holds the link that p follows.
  lemma PruneKeepsLink(s: Phys, t: Pfn, k: nat, p: Path)
    requires 1 <= k <= 4 && p.Valid()
    requires Owned(s, t, k, false) && Present(Walk(s.mem, t, k, p))
    ensures !Prune(s, t, k, p).1 ==> Prune(s, t, k, p).0.mem[t] != ZeroPage()
  {
    hide Present, Frame, IsTree, Foot, SlotFoot, Walk;
    if k > 1 {
      PruneParts(s, t, k, p);
      TreeParts(s.mem, t, p.At(k), k, false);
      NoSlot(s.mem, t, p.At(k), k, false);
    }
  }

  /** Unmapping leaves no table empty, except perhaps the root. */
  lemma {:induction false} PruneNoEmpty(s: Phys, t: Pfn, k: nat, p: Path)
    requires 1 <= k <= 4 && p.Valid()
    requires Owned(s, t, k, false) && Present(Walk(s.mem, t, k, p)) && NoEmpty(s.mem, t, k)
    ensures NoEmpty(Prune(s, t, k, p).0.mem, t, k)
    decreases k
  {
    hide Present, Frame, Unlinked, Owned, Shrunk, Walk;
    if k > 1 {
      var c := Frame(s.mem[t][p.At(k)]);
      PruneParts(s, t, k, p);
      PruneNoEmpty(s, c, k - 1, p);
      var (s1, check) := Prune(s, c, k - 1, p);
      PruneKeepsLink(s, c, k - 1, p);
      NoEmptyUp(s, s1, check, t, p.At(k), k, c);
    }
  }

  lemma NoEmptyUp(s: Phys, s1: Phys, check: bool, t: Pfn, i: nat, k: nat, c: Pfn)
    requires k >= 2 && i < ENTRIES && Owned(s, t, k, false) && NoEmpty(s.mem, t, k)
    requires Present(s.mem[t][i]) && c == Frame(s.mem[t][i]) && Shrunk(s, s1, c, k - 1)
    requires NoEmpty(s1.mem, c, k - 1) && (!check ==> s1.mem[c] != ZeroPage())
    ensures NoEmpty(Unlinked(s1, check, t, i, c).0.mem, t, k)
  {
    hide Present, Frame, IsTree, Foot, SlotFoot, NoEmpty;
    var n := Unlinked(s1, check, t, i, c).0.mem;
    TreeParts(s.mem, t, i, k, false);
    NoSlot(n, t, i, k, false);
    NoEmptySlot(s.mem, n, t, i, k);
  }

  /** Mapping an unmapped page and unmapping it again restores every frame and every free page. */
  lemma {:induction false} PlantPrune(s: Phys, t: Pfn, k: nat, p: Path, flags: bv64, e: bv64)
    requires 1 <= k <= 4 && p.Valid() && TableFlags(flags) && Present(e)
    requires Owned(s, t, k, false) && Sane(s) && NoEmpty(s.mem, t, k)
    requires Walk(s.mem, t, k, p) == 0
    requires Plant(s, t, k, p, flags, e).1
    ensures Restored(s, Prune(Plant(s, t, k, p, flags, e).0, t, k, p).0)
    decreases k
  {
    hide Present, Frame, TableFlags, IsTree, Foot, SlotFoot, NextLevel, Unlinked, Grown, Owned, NoEmpty;
    var i := p.At(k);
    var s2 := Plant(s, t, k, p, flags, e).0;
    if k == 1 {
      RootIsUsed(s, t, k);
    } else {
      Descend(s, t, i, k, flags);
      var (s1, next) := NextLevel(s, t, i, true, flags);
      var f := next.frame;
      NoEmptyDown(s, s1, t, i, k, f);
      PlantGrows(s1, f, k - 1, p, flags, e);
      GrowUp(s, s1, s2, t, i, k, f, false);
      ChildWalk(s, s1, t, i, k, f, p);
      PlantPrune(s1, f, k - 1, p, flags, e);
      RootIsUsed(s1, f, k - 1);
      PlantKeepsLink(s1, f, k - 1, p, flags, e);
      var (s3, check) := Prune(s2, f, k - 1, p);
      Unplant(s, s1, s2, s3, check, t, i, k, f);
    }
  }

  lemma PlantKeepsLink(s: Phys, t: Pfn, k: nat, p: Path, flags: bv64, e: bv64)
    requires 1 <= k <= 4 && p.Valid() && TableFlags(flags) && Present(e)
    requires Owned(s, t, k, false) && Sane(s) && Plant(s, t, k, p, flags, e).1
    ensures var s2 := Plant(s, t, k, p, flags, e).0;
      !Prune(s2, t, k, p).1 ==> Prune(s2, t, k, p).0.mem[t] != ZeroPage()
  {
    hide Present, TableFlags, Plant, Prune, Walk;
    PlantGrows(s, t, k, p, flags, e);
    PlantWalk(s, t, k, p, flags, e, p);
    AgreeSelf(p, k);
    PruneKeepsLink(Plant(s, t, k, p, flags, e).0, t, k, p);
  }

  lemma AgreeSelf(p: Path, k: nat)
    requires k <= 4
    ensures Agree(p, p, 1, k)
  {
  }

  /** Same free frames, and same contents in every frame that was in use. */
  ghost predicate Restored(s: Phys, s1: Phys) {
    s1.free == s.free && s1.top == s.top && forall q: Pfn :: q !in s.free ==> s1.mem[q] == s.mem[q]
  }

  lemma RootIsUsed(s: Phys, t: Pfn, k: nat)
    requires k >= 1 && Owned(s, t, k, false)
    ensures t !in s.free
  {
    assert t in Foot(s.mem, t, k, false);
  }

  lemma ChildWalk(s: Phys, s1: Phys, t: Pfn, i: nat, k: nat, f: Pfn, p: Path)
    requires 2 <= k <= 4 && p.Valid() && i == p.At(k) && Child(s, s1, t, i, k, f, false)
    ensures Walk(s1.mem, f, k - 1, p) == Walk(s.mem, t, k, p)
  {
    hide Frame, Foot;
    if s.mem[t][i] == 0 {
      ZeroWalk(s1.mem, f, k - 1, p);
    }
  }

  lemma Unplant(s: Phys, s1: Phys, s2: Phys, s3: Phys, check: bool, t: Pfn, i: nat, k: nat, f: Pfn)
    requires k >= 2 && i < ENTRIES && Owned(s, t, k, false) && Sane(s)
    requires Child(s, s1, t, i, k, f, false) && Restored(s1, s3) && s2.mem[t] == s1.mem[t]
    requires s.mem[t][i] != 0 ==> s.mem[f] != ZeroPage() && f !in s.free
    requires !check ==> s3.mem[f] != ZeroPage()
    ensures f == Frame(s2.mem[t][i])
    ensures Restored(s, Unlinked(s3, check, t, i, f).0)
  {
    hide Present, Frame, IsTree, Foot, SlotFoot;
    RootIsUsed(s, t, k);
    NoSlot(s.mem, t, i, k, false);
    if s.mem[t][i] == 0 {
      assert s3.mem[f] == ZeroPage();
      assert s3.mem[t] == s1.mem[t];
      assert s3.mem[t][i := 0] == s.mem[t];
    }
  }
}
