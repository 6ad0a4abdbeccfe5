/** Page tables as trees in physical memory: footprints, ownership, and the walk a translation takes. */
module PageTree {
  import opened Pte

  type Page = s: seq<bv64> | |s| == ENTRIES witness seq(ENTRIES, _ => 0)
  function ZeroPage(): Page {
    seq(ENTRIES, _ => 0)
  }

  type Mem = m: seq<Page> | |m| == FRAMES witness seq(FRAMES, _ => ZeroPage())

  // The four table indices of an address, PML4 first.
  datatype Path = Path(pml4: nat, pdpt: nat, pd: nat, pt: nat) {
    predicate Valid() {
      pml4 < ENTRIES && pdpt < ENTRIES && pd < ENTRIES && pt < ENTRIES
    }

    function At(level: nat): nat
      requires 1 <= level <= 4
    {
      if level == 4 then pml4 else if level == 3 then pdpt else if level == 2 then pd else pt
    }
  }

  /** p and q use the same slots from level hi down to level lo. */
  predicate Agree(p: Path, q: Path, lo: nat, hi: nat)
    requires 1 <= lo && hi <= 4
  {
    hi < lo || (p.At(hi) == q.At(hi) && Agree(p, q, lo, hi - 1))
  }

  /** Frames of the subtree of the level-k table t; the frames its leaves map count only if `leaves`. */
  ghost function Foot(m: Mem, t: Pfn, k: nat, leaves: bool): set<Pfn>
    decreases k, 0
  {
    if k == 0 then
      if leaves then {t} else {}
    else
      {t} + set i: nat, p: Pfn | i < ENTRIES && p in SlotFoot(m, t, i, k, leaves) :: p
  }

  ghost function SlotFoot(m: Mem, t: Pfn, i: nat, k: nat, leaves: bool): set<Pfn>
    requires i < ENTRIES && k >= 1
    decreases k - 1, 1
  {
    if Present(m[t][i]) then Foot(m, Frame(m[t][i]), k - 1, leaves) else {}
  }

  /** No frame of the subtree is reached twice, and every entry is zero or present. */
  ghost predicate IsTree(m: Mem, t: Pfn, k: nat, leaves: bool)
    decreases k
  {
    k == 0 ||
    ((forall i: nat :: i < ENTRIES ==>
       && (m[t][i] == 0 || Present(m[t][i]))
       && t !in SlotFoot(m, t, i, k, leaves)
       && (Present(m[t][i]) ==> IsTree(m, Frame(m[t][i]), k - 1, leaves))) &&
     (forall i: nat, j: nat, p: Pfn :: i < j < ENTRIES && p in SlotFoot(m, t, i, k, leaves) ==>
        p !in SlotFoot(m, t, j, k, leaves)))
  }

  /** The level-1 entry that path p leads to, or 0 if a table is missing on the way. */
  ghost function Walk(m: Mem, t: Pfn, k: nat, p: Path): bv64
    requires 1 <= k <= 4 && p.Valid()
    decreases k, 0
  {
    Below(m, m[t][p.At(k)], k, p)
  }

  ghost function Below(m: Mem, e: bv64, k: nat, p: Path): bv64
    requires 1 <= k <= 4 && p.Valid()
    decreases k - 1, 1
  {
    if k == 1 then e else if Present(e) then Walk(m, Frame(e), k - 1, p) else 0
  }

  lemma {:induction false} FootFrame(m: Mem, n: Mem, t: Pfn, k: nat, leaves: bool)
    requires forall p: Pfn :: p in Foot(m, t, k, false) ==> n[p] == m[p]
    ensures Foot(n, t, k, leaves) == Foot(m, t, k, leaves)
    ensures IsTree(m, t, k, leaves) ==> IsTree(n, t, k, leaves)
    decreases k
  {
    hide Present, Frame;
    if k > 0 {
      assert t in Foot(m, t, k, false);
      forall i: nat | i < ENTRIES
        ensures SlotFoot(n, t, i, k, leaves) == SlotFoot(m, t, i, k, leaves)
        ensures Present(m[t][i]) && IsTree(m, Frame(m[t][i]), k - 1, leaves) ==>
                  IsTree(n, Frame(m[t][i]), k - 1, leaves)
      {
        if Present(m[t][i]) {
          forall p: Pfn | p in Foot(m, Frame(m[t][i]), k - 1, false) ensures n[p] == m[p] {
            assert p in SlotFoot(m, t, i, k, false);
          }
          FootFrame(m, n, Frame(m[t][i]), k - 1, leaves);
        }
      }
    }
  }

  lemma {:induction false} TablesInFoot(m: Mem, t: Pfn, k: nat)
    ensures Foot(m, t, k, false) <= Foot(m, t, k, true)
    decreases k
  {
    hide Present, Frame;
    if k > 0 {
      forall p: Pfn, i: nat | i < ENTRIES && p in SlotFoot(m, t, i, k, false) ensures p in SlotFoot(m, t, i, k, true) {
        TablesInFoot(m, Frame(m[t][i]), k - 1);
      }
    }
  }

  lemma {:induction false} WalkFrame(m: Mem, n: Mem, t: Pfn, k: nat, p: Path)
    requires 1 <= k <= 4 && p.Valid()
    requires forall q: Pfn :: q in Foot(m, t, k, false) ==> n[q] == m[q]
    ensures Walk(n, t, k, p) == Walk(m, t, k, p)
    decreases k
  {
    hide Present, Frame;
    assert t in Foot(m, t, k, false);
    var e := m[t][p.At(k)];
    if k > 1 && Present(e) {
      forall q: Pfn | q in Foot(m, Frame(e), k - 1, false) ensures n[q] == m[q] {
        assert q in SlotFoot(m, t, p.At(k), k, false);
      }
      WalkFrame(m, n, Frame(e), k - 1, p);
    }
  }

  lemma SlotFrame(m: Mem, n: Mem, t: Pfn, j: nat, k: nat, leaves: bool)
    requires j < ENTRIES && k >= 1
    requires n[t][j] == m[t][j]
    requires forall p: Pfn :: p in SlotFoot(m, t, j, k, leaves) ==> n[p] == m[p]
    ensures SlotFoot(n, t, j, k, leaves) == SlotFoot(m, t, j, k, leaves)
    ensures Present(n[t][j]) && IsTree(m, Frame(m[t][j]), k - 1, leaves) ==> IsTree(n, Frame(n[t][j]), k - 1, leaves)
  {
    hide Present, Frame, IsTree;
    if Present(m[t][j]) {
      TablesInFoot(m, Frame(m[t][j]), k - 1);
      FootFrame(m, n, Frame(m[t][j]), k - 1, leaves);
    }
  }

  /** One slot of a table gets a new subtree, apart from everything else in the tree. */
  lemma SlotUpdate(m: Mem, n: Mem, t: Pfn, i: nat, k: nat, leaves: bool)
    requires i < ENTRIES && k >= 1
    requires IsTree(m, t, k, leaves)
    requires forall j: nat :: j < ENTRIES && j != i ==> n[t][j] == m[t][j]
    requires n[t][i] == 0 || Present(n[t][i])
    requires Present(n[t][i]) ==> IsTree(n, Frame(n[t][i]), k - 1, leaves)
    requires t !in SlotFoot(n, t, i, k, leaves)
    requires forall j: nat, p: Pfn :: j < ENTRIES && j != i && p in SlotFoot(m, t, j, k, leaves) ==>
               n[p] == m[p] && p !in SlotFoot(n, t, i, k, leaves)
    ensures IsTree(n, t, k, leaves)
    ensures forall j: nat :: j < ENTRIES && j != i ==> SlotFoot(n, t, j, k, leaves) == SlotFoot(m, t, j, k, leaves)
    ensures Foot(n, t, k, leaves) == Foot(m, t, k, leaves) - SlotFoot(m, t, i, k, leaves) + SlotFoot(n, t, i, k, leaves)
  {
    hide Present, Frame, SlotFoot;
    forall j: nat | j < ENTRIES && j != i
      ensures SlotFoot(n, t, j, k, leaves) == SlotFoot(m, t, j, k, leaves)
      ensures Present(n[t][j]) ==> IsTree(n, Frame(n[t][j]), k - 1, leaves)
    {
      SlotFrame(m, n, t, j, k, leaves);
    }
  }

  // What the definitions say about slot i, without unfolding them again.
  lemma TreeParts(m: Mem, t: Pfn, i: nat, k: nat, leaves: bool)
    requires i < ENTRIES && k >= 1
    requires IsTree(m, t, k, leaves)
    ensures t in Foot(m, t, k, leaves)
    ensures SlotFoot(m, t, i, k, leaves) <= Foot(m, t, k, leaves) - {t}
    ensures m[t][i] == 0 || Present(m[t][i])
    ensures Present(m[t][i]) ==>
              && SlotFoot(m, t, i, k, leaves) == Foot(m, Frame(m[t][i]), k - 1, leaves)
              && IsTree(m, Frame(m[t][i]), k - 1, leaves)
    ensures forall j: nat, p: Pfn :: j < ENTRIES && j != i && p in SlotFoot(m, t, j, k, leaves) ==>
              p in Foot(m, t, k, leaves) && p !in SlotFoot(m, t, i, k, leaves) && p != t
  {
    hide Present, Frame;
  }

  lemma NewParent(m: Mem, n: Mem, t: Pfn, i: nat, k: nat, leaves: bool)
    requires i < ENTRIES && k >= 1
    requires Present(m[t][i]) && n[t] == m[t]
    ensures SlotFoot(n, t, i, k, leaves) == Foot(n, Frame(m[t][i]), k - 1, leaves)
  {
  }
}
