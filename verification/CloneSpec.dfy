/** What a clone of a tree of tables is, how many pages it takes, and the steps that build and release it. */
module CloneSpec {
  import opened Machine
  import opened Pte
  import opened PageTree
  import opened PhysMem
  import opened VmmSpec

  /** In memory n, the level-k table c (a page of data if k is 0) is a deep copy of what t was in memory m. */
  ghost predicate IsCopy(m: Mem, t: Pfn, n: Mem, c: Pfn, k: nat)
    decreases k, 0
  {
    if k == 0 then n[c] == m[t] else forall i: nat :: i < ENTRIES ==> IsCopySlot(m, t, n, c, i, k)
  }

  /** The copied entry points to a copy, with the low 12 flag bits of the original and no other. */
  ghost predicate IsCopySlot(m: Mem, t: Pfn, n: Mem, c: Pfn, i: nat, k: nat)
    requires k >= 1 && i < ENTRIES
    decreases k - 1, 1
  {
    if Present(m[t][i]) then
      && Present(n[c][i])
      && n[c][i] == Entry(Frame(n[c][i]), m[t][i] & LOW_FLAGS)
      && IsCopy(m, Frame(m[t][i]), n, Frame(n[c][i]), k - 1)
    else n[c][i] == 0
  }

  /** Pages needed to copy what is below t. */
  ghost function Need(m: Mem, t: Pfn, k: nat): nat
    decreases k, ENTRIES + 1
  {
    if k == 0 then 0 else NeedTo(m, t, k, ENTRIES)
  }

  /** Pages needed for the first n slots. */
  ghost function NeedTo(m: Mem, t: Pfn, k: nat, n: nat): nat
    requires k >= 1 && n <= ENTRIES
    decreases k, n
  {
    if n == 0 then 0
    else NeedTo(m, t, k, n - 1) + if Present(m[t][n - 1]) then 1 + Need(m, Frame(m[t][n - 1]), k - 1) else 0
  }

  lemma {:induction false} NeedToGrows(m: Mem, t: Pfn, k: nat, i: nat, n: nat)
    requires k >= 1 && i <= n <= ENTRIES
    ensures NeedTo(m, t, k, i) <= NeedTo(m, t, k, n)
    decreases n - i
  {
    hide Present, Frame;
    if i < n {
      NeedToGrows(m, t, k, i, n - 1);
    }
  }

  lemma {:induction false} CopyFrame(m: Mem, t: Pfn, n: Mem, n1: Mem, c: Pfn, k: nat)
    requires IsCopy(m, t, n, c, k)
    requires forall q: Pfn :: q in Foot(n, c, k, true) ==> n1[q] == n[q]
    ensures IsCopy(m, t, n1, c, k)
    decreases k
  {
    hide Present, Frame, Entry;
    if k > 0 {
      forall i: nat | i < ENTRIES ensures IsCopySlot(m, t, n1, c, i, k) {
        assert IsCopySlot(m, t, n, c, i, k);
        assert c in Foot(n, c, k, true);
        if Present(m[t][i]) {
          forall q: Pfn | q in Foot(n, Frame(n[c][i]), k - 1, true) ensures n1[q] == n[q] {
            assert q in SlotFoot(n, c, i, k, true);
          }
          CopyFrame(m, Frame(m[t][i]), n, n1, Frame(n[c][i]), k - 1);
        }
      }
    }
  }

  lemma SlotCopyFrame(m: Mem, t: Pfn, n: Mem, n1: Mem, c: Pfn, i: nat, k: nat)
    requires k >= 1 && i < ENTRIES && IsCopySlot(m, t, n, c, i, k)
    requires n1[c][i] == n[c][i]
    requires forall q: Pfn :: q in SlotFoot(n, c, i, k, true) ==> n1[q] == n[q]
    ensures IsCopySlot(m, t, n1, c, i, k)
  {
    hide Present, Frame, Entry, IsCopy;
    if Present(m[t][i]) {
      CopyFrame(m, Frame(m[t][i]), n, n1, Frame(n[c][i]), k - 1);
    }
  }

  /** The frames of t's tree, and those its leaves map, are in use. */
  ghost predicate Source(m: Mem, s: Phys, t: Pfn, k: nat) {
    forall q :: q in Foot(m, t, k, true) ==> q !in s.free && s.mem[q] == m[q]
  }

  // A state of a loop that has copied the first i slots of t (as it was in m) to c, starting from s0.
  ghost predicate Copying(m: Mem, s0: Phys, s: Phys, t: Pfn, c: Pfn, i: nat, k: nat)
    requires k >= 1 && i <= ENTRIES
  {
    && Sane(s) && Grown(s0, s, c, k, true)
    && |s0.free| == |s.free| + NeedTo(m, t, k, i)
    && (forall j: nat :: j < i ==> IsCopySlot(m, t, s.mem, c, j, k))
    && (forall j: nat :: i <= j < ENTRIES ==> s.mem[c][j] == 0)
  }

  // What a copy of a subtree ends with: all of it, or no free memory.
  ghost predicate Copied(m: Mem, s0: Phys, s: Phys, t: Pfn, c: Pfn, k: nat, ok: bool) {
    && Sane(s) && Grown(s0, s, c, k, true)
    && if ok then IsCopy(m, t, s.mem, c, k) && |s0.free| == |s.free| + Need(m, t, k)
       else s.free == {} && |s0.free| < Need(m, t, k)
  }

  lemma ZeroTreeWithLeaves(m: Mem, t: Pfn, k: nat)
    requires 1 <= k && m[t] == ZeroPage()
    ensures IsTree(m, t, k, true) && Foot(m, t, k, true) == {t}
  {
  }

  lemma StartCopy(m: Mem, s: Phys, t: Pfn, c: Pfn, k: nat)
    requires k >= 1 && Sane(s) && s.mem[c] == ZeroPage() && c !in s.free && 0 < c <= s.top
    ensures Owned(s, c, k, true) && Copying(m, s, s, t, c, 0, k)
  {
    hide IsTree, Foot;
    ZeroTreeWithLeaves(s.mem, c, k);
  }

  lemma GrownTrans(s0: Phys, s1: Phys, s2: Phys, c: Pfn, k: nat, leaves: bool)
    requires Grown(s0, s1, c, k, leaves) && Grown(s1, s2, c, k, leaves)
    ensures Grown(s0, s2, c, k, leaves)
  {
    hide IsTree, Foot;
  }

  lemma SkipSlot(m: Mem, s0: Phys, s: Phys, t: Pfn, c: Pfn, i: nat, k: nat)
    requires k >= 1 && i < ENTRIES && Copying(m, s0, s, t, c, i, k) && !Present(m[t][i])
    ensures Copying(m, s0, s, t, c, i + 1, k)
  {
    hide Present, Frame, Grown;
  }

  /** Frame f is fresh, and hangs in slot i of c as the copy of what hangs in slot i of t. */
  ghost predicate Hung(m: Mem, s: Phys, s1: Phys, t: Pfn, c: Pfn, i: nat, k: nat, f: Pfn)
    requires k >= 1 && i < ENTRIES
  {
    && Linked(s, s1, c, i, f)
    && s1.mem[c][i] == Entry(f, m[t][i] & LOW_FLAGS)
    && Foot(s1.mem, f, k - 1, true) == {f}
    && (k >= 2 ==> s1.mem[f] == ZeroPage())
  }

  // Slots before i are untouched by work on slot i.
  lemma EarlierSlots(m: Mem, s: Phys, s1: Phys, s2: Phys, t: Pfn, c: Pfn, i: nat, k: nat, f: Pfn)
    requires k >= 1 && i < ENTRIES && Owned(s, c, k, true)
    requires Hung(m, s, s1, t, c, i, k, f) && Grown(s1, s2, f, k - 1, true) && s2.mem[c] == s1.mem[c]
    requires forall j: nat :: j < i ==> IsCopySlot(m, t, s.mem, c, j, k)
    ensures forall j: nat :: j < i ==> IsCopySlot(m, t, s2.mem, c, j, k)
  {
    hide Present, Frame, Entry, IsTree, Foot, SlotFoot, IsCopySlot;
    TreeParts(s.mem, c, i, k, true);
    forall j: nat | j < i ensures IsCopySlot(m, t, s2.mem, c, j, k) {
      SlotCopyFrame(m, t, s.mem, s2.mem, c, j, k);
    }
  }

  lemma NewSlot(m: Mem, s: Phys, s1: Phys, s2: Phys, t: Pfn, c: Pfn, i: nat, k: nat, f: Pfn)
    requires k >= 1 && i < ENTRIES && Present(m[t][i])
    requires Hung(m, s, s1, t, c, i, k, f) && s2.mem[c] == s1.mem[c]
    requires IsCopy(m, Frame(m[t][i]), s2.mem, f, k - 1)
    ensures IsCopySlot(m, t, s2.mem, c, i, k)
  {
    hide Present, Frame, Entry, IsCopy;
  }

  lemma Extend(m: Mem, s0: Phys, s: Phys, s1: Phys, s2: Phys, t: Pfn, c: Pfn, i: nat, k: nat, f: Pfn)
    requires k >= 1 && i < ENTRIES && Copying(m, s0, s, t, c, i, k)
    requires Hung(m, s, s1, t, c, i, k, f) && Grown(s1, s2, f, k - 1, true)
    ensures Grown(s0, s2, c, k, true) && s2.mem[c] == s1.mem[c] && |s1.free| == |s.free| - 1
  {
    hide Present, Frame, Entry, IsTree, Foot, SlotFoot, IsCopySlot;
    GrowUp(s, s1, s2, c, i, k, f, true);
    GrownTrans(s0, s, s2, c, k, true);
  }

  /** Copying slot i, after linking a fresh frame there, extends the copy by one slot, or shows that memory does not
      suffice. */
  lemma TakeSlot(m: Mem, s0: Phys, s: Phys, s1: Phys, s2: Phys, t: Pfn, c: Pfn, i: nat, k: nat, f: Pfn, ok: bool)
    requires k >= 1 && i < ENTRIES && Copying(m, s0, s, t, c, i, k) && Present(m[t][i])
    requires Hung(m, s, s1, t, c, i, k, f)
    requires Copied(m, s1, s2, Frame(m[t][i]), f, k - 1, ok)
    ensures if ok then Copying(m, s0, s2, t, c, i + 1, k) else Copied(m, s0, s2, t, c, k, false)
  {
    hide Present, Frame, Entry, IsCopySlot, IsCopy, Grown, Hung;
    Extend(m, s0, s, s1, s2, t, c, i, k, f);
    NeedToGrows(m, t, k, i + 1, ENTRIES);
    if ok {
      NewSlot(m, s, s1, s2, t, c, i, k, f);
      StillOwned(s0, s, c, k);
      EarlierSlots(m, s, s1, s2, t, c, i, k, f);
      LaterSlots(m, s, s1, t, c, i, k, f);
    }
  }

  lemma LaterSlots(m: Mem, s: Phys, s1: Phys, t: Pfn, c: Pfn, i: nat, k: nat, f: Pfn)
    requires k >= 1 && i < ENTRIES && Hung(m, s, s1, t, c, i, k, f)
    ensures forall j: nat :: i < j < ENTRIES ==> s1.mem[c][j] == s.mem[c][j]
  {
  }

  lemma StillOwned(s0: Phys, s: Phys, c: Pfn, k: nat)
    requires Grown(s0, s, c, k, true)
    ensures Owned(s, c, k, true)
  {
  }

  lemma OutOfMemory(m: Mem, s0: Phys, s: Phys, t: Pfn, c: Pfn, i: nat, k: nat)
    requires k >= 1 && i < ENTRIES && Copying(m, s0, s, t, c, i, k) && Present(m[t][i]) && s.free == {}
    ensures Copied(m, s0, s, t, c, k, false)
  {
    hide Present, Frame, Grown;
    NeedToGrows(m, t, k, i + 1, ENTRIES);
  }

  lemma AllSlots(m: Mem, s0: Phys, s: Phys, t: Pfn, c: Pfn, k: nat)
    requires k >= 1 && Copying(m, s0, s, t, c, ENTRIES, k)
    ensures Copied(m, s0, s, t, c, k, true)
  {
    hide Present, Frame, Grown;
    assert IsCopy(m, t, s.mem, c, k) by {
      assert forall i: nat :: i < ENTRIES ==> IsCopySlot(m, t, s.mem, c, i, k);
    }
  }

  /** Everything below the first n slots of t. */
  ghost function BelowTo(m: Mem, t: Pfn, k: nat, n: nat): set<Pfn>
    requires k >= 1 && n <= ENTRIES
  {
    set j: nat, f: Pfn | j < n && f in SlotFoot(m, t, j, k, true) :: f
  }

  lemma BelowStep(m: Mem, t: Pfn, k: nat, n: nat)
    requires k >= 1 && n < ENTRIES
    ensures BelowTo(m, t, k, 0) == {}
    ensures BelowTo(m, t, k, n + 1) == BelowTo(m, t, k, n) + SlotFoot(m, t, n, k, true)
  {
    hide SlotFoot;
  }

  lemma BelowAll(m: Mem, t: Pfn, k: nat)
    requires k >= 1 && IsTree(m, t, k, true)
    ensures BelowTo(m, t, k, ENTRIES) == Foot(m, t, k, true) - {t}
  {
    hide Present, Frame;
  }

  /** The level-k table t and the tables below it read zero, and all frames that are none of them, those of its leaves
      included, keep their contents. */
  ghost predicate Wiped(m: Mem, n: Mem, t: Pfn, k: nat) {
    && (forall q :: q in Foot(m, t, k, false) ==> n[q] == ZeroPage())
    && forall q: Pfn :: q !in Foot(m, t, k, false) ==> n[q] == m[q]
  }

  /** What releasing the tree below t ends with: its frames, other than t, are free, its tables read zero, and nothing
      else changed. */
  ghost predicate Emptied(s0: Phys, s: Phys, t: Pfn, k: nat) {
    && s.top == s0.top && Sane(s)
    && s.free == s0.free + (Foot(s0.mem, t, k, true) - {t})
    && Wiped(s0.mem, s.mem, t, k)
  }

  // The first i slots of t are clear, and the tables below them read zero; nothing else changed.
  ghost predicate Wiping(m: Mem, n: Mem, t: Pfn, k: nat, i: nat)
    requires k >= 1 && i <= ENTRIES
  {
    && (forall j: nat :: j < ENTRIES ==> n[t][j] == if j < i then 0 else m[t][j])
    && (forall j: nat, q: Pfn :: j < i && q in SlotFoot(m, t, j, k, false) ==> n[q] == ZeroPage())
    && forall q: Pfn :: q != t && (forall j: nat :: j < i ==> q !in SlotFoot(m, t, j, k, false)) ==> n[q] == m[q]
  }

  // A state of the loop that has released what was below the first i slots of t.
  ghost predicate Emptying(s0: Phys, s: Phys, t: Pfn, k: nat, i: nat)
    requires k >= 1 && i <= ENTRIES
  {
    && s.top == s0.top && Sane(s)
    && s.free == s0.free + BelowTo(s0.mem, t, k, i)
    && Wiping(s0.mem, s.mem, t, k, i)
  }

  lemma StartEmptying(s: Phys, t: Pfn, k: nat)
    requires k >= 1 && Owned(s, t, k, true) && Sane(s)
    ensures Emptying(s, s, t, k, 0)
  {
    hide IsTree, Foot, SlotFoot;
    BelowStep(s.mem, t, k, 0);
  }

  lemma InSomeSlot(m: Mem, t: Pfn, k: nat, q: Pfn) returns (j: nat)
    requires k >= 1 && q in Foot(m, t, k, false) && q != t
    ensures j < ENTRIES && q in SlotFoot(m, t, j, k, false)
  {
    hide Present, Frame;
    j :| j < ENTRIES && q in SlotFoot(m, t, j, k, false);
  }

  lemma DoneWiping(m: Mem, n: Mem, t: Pfn, k: nat)
    requires k >= 1 && Wiping(m, n, t, k, ENTRIES)
    ensures Wiped(m, n, t, k)
  {
    hide SlotFoot;
    assert n[t] == ZeroPage();
    forall q | q in Foot(m, t, k, false) ensures n[q] == ZeroPage() {
      if q != t {
        var j := InSomeSlot(m, t, k, q);
      }
    }
    forall q: Pfn | q !in Foot(m, t, k, false) ensures n[q] == m[q] {
      assert q != t && forall j: nat :: j < ENTRIES ==> q !in SlotFoot(m, t, j, k, false);
    }
  }

  lemma DoneEmptying(s0: Phys, s: Phys, t: Pfn, k: nat)
    requires k >= 1 && Owned(s0, t, k, true) && Emptying(s0, s, t, k, ENTRIES)
    ensures Emptied(s0, s, t, k)
  {
    hide IsTree, Foot, SlotFoot, Wiping, Wiped;
    BelowAll(s0.mem, t, k);
    DoneWiping(s0.mem, s.mem, t, k);
  }

  lemma SkipWipedSlot(m: Mem, n: Mem, t: Pfn, k: nat, i: nat)
    requires k >= 1 && i < ENTRIES && Wiping(m, n, t, k, i) && m[t][i] == 0 && SlotFoot(m, t, i, k, false) == {}
    ensures Wiping(m, n, t, k, i + 1)
  {
    hide SlotFoot;
  }

  lemma SkipEmptySlot(s0: Phys, s: Phys, t: Pfn, k: nat, i: nat)
    requires k >= 1 && i < ENTRIES && Owned(s0, t, k, true) && Emptying(s0, s, t, k, i) && !Present(s0.mem[t][i])
    ensures Emptying(s0, s, t, k, i + 1)
  {
    hide Present, Frame, Foot, IsTree, Wiping;
    BelowStep(s0.mem, t, k, i);
    TreeParts(s0.mem, t, i, k, true);
    SkipWipedSlot(s0.mem, s.mem, t, k, i);
  }

  // A table below slot j is not below slot i.
  lemma SlotApart(m: Mem, t: Pfn, k: nat, i: nat, j: nat, q: Pfn)
    requires k >= 1 && i < ENTRIES && j < ENTRIES && IsTree(m, t, k, true) && q in SlotFoot(m, t, j, k, false)
    ensures q in SlotFoot(m, t, j, k, true) && q != t && (j != i ==> q !in SlotFoot(m, t, i, k, true))
  {
    hide Present, Frame, IsTree, Foot, SlotFoot;
    SlotOfTables(m, t, j, k);
    TreeParts(m, t, i, k, true);
    TreeParts(m, t, j, k, true);
  }

  lemma SlotOfTables(m: Mem, t: Pfn, j: nat, k: nat)
    requires j < ENTRIES && k >= 1
    ensures SlotFoot(m, t, j, k, false) <= SlotFoot(m, t, j, k, true)
  {
    hide Present, Frame;
    if Present(m[t][j]) {
      TablesInFoot(m, Frame(m[t][j]), k - 1);
    }
  }

  // What is below slot i is as it was.
  lemma SlotIntact(m: Mem, n: Mem, t: Pfn, k: nat, i: nat)
    requires k >= 1 && i < ENTRIES && IsTree(m, t, k, true) && Wiping(m, n, t, k, i)
    ensures forall q :: q in SlotFoot(m, t, i, k, true) ==> n[q] == m[q]
  {
    hide SlotFoot, IsTree, Foot, Present, Frame;
    TreeParts(m, t, i, k, true);
    forall q | q in SlotFoot(m, t, i, k, true) ensures n[q] == m[q] {
      forall j: nat | j < i ensures q !in SlotFoot(m, t, j, k, false) {
        if q in SlotFoot(m, t, j, k, false) {
          SlotApart(m, t, k, i, j, q);
        }
      }
    }
  }

  // The subtree in slot i is still there, whole and in use.
  lemma SubtreeIntact(s0: Phys, s: Phys, t: Pfn, k: nat, i: nat)
    requires k >= 1 && i < ENTRIES && Owned(s0, t, k, true) && Emptying(s0, s, t, k, i)
    requires Present(s0.mem[t][i])
    ensures Owned(s, Frame(s0.mem[t][i]), k - 1, true)
    ensures Foot(s.mem, Frame(s0.mem[t][i]), k - 1, true) == SlotFoot(s0.mem, t, i, k, true)
    ensures Foot(s.mem, Frame(s0.mem[t][i]), k - 1, false) == SlotFoot(s0.mem, t, i, k, false)
  {
    hide Present, Frame, IsTree, Foot, SlotFoot, Wiping;
    var c := Frame(s0.mem[t][i]);
    TreeParts(s0.mem, t, i, k, true);
    SlotIntact(s0.mem, s.mem, t, k, i);
    NewParent(s0.mem, s0.mem, t, i, k, false);
    TablesInFoot(s0.mem, c, k - 1);
    FootFrame(s0.mem, s.mem, c, k - 1, true);
    FootFrame(s0.mem, s.mem, c, k - 1, false);
    forall f | f in Foot(s0.mem, c, k - 1, true) ensures f !in BelowTo(s0.mem, t, k, i) {
    }
  }

  lemma WipeSlot(m: Mem, n: Mem, n1: Mem, t: Pfn, k: nat, i: nat)
    requires k >= 1 && i < ENTRIES && Wiping(m, n, t, k, i) && IsTree(m, t, k, true)
    requires forall q :: q in SlotFoot(m, t, i, k, false) ==> n1[q] == ZeroPage()
    requires forall q: Pfn :: q !in SlotFoot(m, t, i, k, false) ==> n1[q] == n[q]
    ensures Wiping(m, Write(n1, t, i, 0), t, k, i + 1)
  {
    hide SlotFoot, IsTree, Foot;
    forall j: nat, q: Pfn | j <= i && q in SlotFoot(m, t, j, k, false)
      ensures q != t && (j < i ==> q !in SlotFoot(m, t, i, k, false))
    {
      SlotApart(m, t, k, i, j, q);
      SlotOfTables(m, t, i, k);
    }
    assert n1[t] == n[t];
  }

  /** Releasing the subtree in slot i, then its head, then clearing the slot, releases one more slot. */
  lemma ReleaseSlot(s0: Phys, s: Phys, s1: Phys, t: Pfn, k: nat, i: nat)
    requires k >= 1 && i < ENTRIES && Owned(s0, t, k, true) && Emptying(s0, s, t, k, i)
    requires Present(s0.mem[t][i]) && Emptied(s, s1, Frame(s0.mem[t][i]), k - 1)
    ensures var c := Frame(s0.mem[t][i]); var s2 := Released(s1, c * PAGE_SIZE);
      && c !in s1.free
      && Emptying(s0, Phys(Write(s2.mem, t, i, 0), s2.free, s2.top), t, k, i + 1)
  {
    hide Present, Frame, IsTree, Foot, SlotFoot, Wiping;
    var c := Frame(s0.mem[t][i]);
    SubtreeIntact(s0, s, t, k, i);
    TreeParts(s0.mem, t, i, k, true);
    BelowStep(s0.mem, t, k, i);
    HeadInFoot(s.mem, c, k - 1);
    WipeSlot(s0.mem, s.mem, s1.mem, t, k, i);
    hide BelowTo;
  }

  lemma HeadInFoot(m: Mem, c: Pfn, k: nat)
    ensures c in Foot(m, c, k, true)
  {
  }

  // The source outlives a copy that is under way.
  lemma SourceKept(m: Mem, s0: Phys, s: Phys, t: Pfn, c: Pfn, k: nat)
    requires Source(m, s0, t, k) && Grown(s0, s, c, k, true) && Foot(s0.mem, c, k, true) == {c}
      && c !in Foot(m, t, k, true)
    ensures Source(m, s, t, k)
  {
    hide IsTree, Foot;
  }

  // A subtree of the source is a source, also after a fresh frame was hung in the copy.
  lemma SourceChild(m: Mem, s: Phys, s1: Phys, t: Pfn, c: Pfn, i: nat, k: nat, f: Pfn)
    requires k >= 1 && i < ENTRIES && Present(m[t][i])
    requires Source(m, s, t, k) && c !in Foot(m, t, k, true) && Linked(s, s1, c, i, f)
    ensures Source(m, s1, Frame(m[t][i]), k - 1) && f !in Foot(m, Frame(m[t][i]), k - 1, true)
  {
    hide Present, Frame;
    forall q | q in Foot(m, Frame(m[t][i]), k - 1, true) ensures q in Foot(m, t, k, true) {
      assert q in SlotFoot(m, t, i, k, true);
    }
  }

  // The entry for a copied frame keeps the present bit, and no bit above the low twelve.
  lemma CopiedEntry(f: Pfn, e: bv64)
    requires Present(e)
    ensures Present(Entry(f, e & LOW_FLAGS)) && Frame(Entry(f, e & LOW_FLAGS)) == f
  {
    LowFlags(e);
    hide Present, Frame, Flags, Entry;
    EntryFrame(f, e & LOW_FLAGS);
    EntryFlags(f, e & LOW_FLAGS);
  }

  lemma LowFlags(e: bv64)
    ensures Flags(e & LOW_FLAGS) == e & LOW_FLAGS
    ensures Present(e) ==> Present(e & LOW_FLAGS)
  {
  }

  /** Link a freshly allocated frame, zeroed for a table or filled with the source page for a leaf. */
  ghost function Hang(m: Mem, s: Phys, t: Pfn, c: Pfn, i: nat, k: nat, f: Pfn): Phys
    requires k >= 1 && i < ENTRIES
  {
    var page := if k == 1 then m[Frame(m[t][i])] else ZeroPage();
    Phys(Write(s.mem[f := page], c, i, Entry(f, m[t][i] & LOW_FLAGS)), s.free - {f}, s.top)
  }

  lemma HangIsHung(m: Mem, s: Phys, t: Pfn, c: Pfn, i: nat, k: nat, f: Pfn)
    requires k >= 1 && i < ENTRIES && Present(m[t][i]) && f in s.free && 0 < f <= s.top && f != c
    ensures Hung(m, s, Hang(m, s, t, c, i, k, f), t, c, i, k, f)
  {
    hide Entry, Frame, Present;
    CopiedEntry(f, m[t][i]);
    if k >= 2 {
      hide Foot;
      ZeroTreeWithLeaves(Hang(m, s, t, c, i, k, f).mem, f, k - 1);
    }
  }

  // A copied leaf page is a finished copy of depth 0.
  lemma LeafCopied(m: Mem, s: Phys, t: Pfn, c: Pfn, i: nat, f: Pfn)
    requires i < ENTRIES && Present(m[t][i]) && f in s.free && f != c && Sane(s)
    ensures var s1 := Hang(m, s, t, c, i, 1, f);
      Copied(m, s1, s1, Frame(m[t][i]), f, 0, true)
  {
    hide Entry, Frame, Present;
  }

  // What the loop may rely on at slot i.
  lemma CopyingSource(m: Mem, s0: Phys, s: Phys, t: Pfn, c: Pfn, i: nat, k: nat)
    requires k >= 1 && i < ENTRIES && Copying(m, s0, s, t, c, i, k)
    requires Source(m, s0, t, k) && s0.mem[c] == ZeroPage() && c !in Foot(m, t, k, true)
    ensures Source(m, s, t, k) && s.mem[t] == m[t] && c !in s.free
    ensures Present(m[t][i]) ==> Frame(m[t][i]) !in s.free && s.mem[Frame(m[t][i])] == m[Frame(m[t][i])]
  {
    hide Present, Frame, IsTree, Foot, IsCopySlot;
    ZeroTreeWithLeaves(s0.mem, c, k);
    SourceKept(m, s0, s, t, c, k);
    HeadInFoot(m, t, k);
    HeadInFoot(s.mem, c, k);
    if Present(m[t][i]) {
      LeafInFoot(m, t, i, k);
    }
  }

  lemma LeafInFoot(m: Mem, t: Pfn, i: nat, k: nat)
    requires k >= 1 && i < ENTRIES && Present(m[t][i])
    ensures Frame(m[t][i]) in Foot(m, t, k, true)
  {
    hide Present, Frame;
    HeadInFoot(m, Frame(m[t][i]), k - 1);
    assert Frame(m[t][i]) in SlotFoot(m, t, i, k, true);
  }

  // Once f hangs in slot i, a leaf is done and a table is ready to be copied into.
  lemma Ready(m: Mem, s: Phys, t: Pfn, c: Pfn, i: nat, k: nat, f: Pfn)
    requires k >= 1 && i < ENTRIES && Present(m[t][i]) && Sane(s)
    requires f in s.free && c !in s.free && Source(m, s, t, k) && c !in Foot(m, t, k, true)
    ensures var s1 := Hang(m, s, t, c, i, k, f);
      && Hung(m, s, s1, t, c, i, k, f) && Sane(s1) && f !in s1.free && 0 < f <= s1.top
      && (k == 1 ==> Copied(m, s1, s1, Frame(m[t][i]), f, 0, true))
      && (k > 1 ==>
        && Source(m, s1, Frame(m[t][i]), k - 1) && f !in Foot(m, Frame(m[t][i]), k - 1, true)
        && s1.mem[f] == ZeroPage())
  {
    hide Present, Frame, Entry, Foot, Source, Copied;
    HangIsHung(m, s, t, c, i, k, f);
    SourceChild(m, s, Hang(m, s, t, c, i, k, f), t, c, i, k, f);
    if k == 1 {
      LeafCopied(m, s, t, c, i, f);
    }
  }

  lemma EmptyingSlot(s0: Phys, s: Phys, t: Pfn, k: nat, i: nat)
    requires k >= 1 && i < ENTRIES && Emptying(s0, s, t, k, i)
    ensures s.mem[t][i] == s0.mem[t][i]
  {
  }

  // Below a leaf page there is nothing to release.
  lemma EmptyLeaf(s: Phys, f: Pfn)
    requires Sane(s)
    ensures Emptied(s, s, f, 0)
  {
  }

  lemma CopyingSane(m: Mem, s0: Phys, s: Phys, t: Pfn, c: Pfn, i: nat, k: nat)
    requires k >= 1 && i <= ENTRIES && Copying(m, s0, s, t, c, i, k)
    ensures Sane(s)
  {
  }
}
