/** How many table pages a pagemap has: one for each distinct prefix of a mapped page, and no more. */
module VmmCount {
  import opened Pte
  import opened PageTree
  import opened VmmSpec

  /** The first n indices of a path, from level k down. */
  function Prefix(p: Path, k: nat, n: nat): seq<nat>
    requires n <= k <= 4
  {
    if n == 0 then [] else [p.At(k)] + Prefix(p, k - 1, n - 1)
  }

  /** x leads from the level-k table t towards some mapped page, stopping at a table. */
  ghost predicate MappedPrefix(m: Mem, t: Pfn, k: nat, x: seq<nat>)
    requires 1 <= k <= 4
  {
    |x| < k && exists p: Path :: p.Valid() && Walk(m, t, k, p) != 0 && x == Prefix(p, k, |x|)
  }

  /** The index sequences that lead from t to a table. */
  ghost function Keys(m: Mem, t: Pfn, k: nat): set<seq<nat>>
    requires k >= 1
    decreases k, 0
  {
    {[]} + set i: nat, x | i < ENTRIES && x in SlotKeys(m, t, i, k) :: x
  }

  ghost function SlotKeys(m: Mem, t: Pfn, i: nat, k: nat): set<seq<nat>>
    requires i < ENTRIES && k >= 1
    decreases k - 1, 1
  {
    if k >= 2 && Present(m[t][i]) then Prepend(i, Keys(m, Frame(m[t][i]), k - 1)) else {}
  }

  ghost function Prepend(i: nat, s: set<seq<nat>>): set<seq<nat>> {
    set x | x in s :: [i] + x
  }

  lemma {:induction false} PrependSize(i: nat, s: set<seq<nat>>)
    ensures |Prepend(i, s)| == |s|
  {
    if s == {} {
      assert Prepend(i, s) == {};
    } else {
      var y :| y in s;
      var rest := s - {y};
      PrependSize(i, rest);
      forall z | z in rest ensures [i] + z != [i] + y {
        assert ([i] + z)[1..] == z && ([i] + y)[1..] == y;
      }
      assert [i] + y !in Prepend(i, rest);
      assert Prepend(i, s) == Prepend(i, rest) + {[i] + y};
    }
  }

  // The parts of Keys and Foot that come from the first n slots.
  ghost function KeysTo(m: Mem, t: Pfn, k: nat, n: nat): set<seq<nat>>
    requires k >= 1 && n <= ENTRIES
  {
    {[]} + set i: nat, x | i < n && x in SlotKeys(m, t, i, k) :: x
  }

  ghost function FootTo(m: Mem, t: Pfn, k: nat, n: nat): set<Pfn>
    requires k >= 1 && n <= ENTRIES
  {
    {t} + set i: nat, f: Pfn | i < n && f in SlotFoot(m, t, i, k, false) :: f
  }

  lemma KeysToStep(m: Mem, t: Pfn, k: nat, n: nat)
    requires k >= 1 && n < ENTRIES
    ensures KeysTo(m, t, k, n + 1) == KeysTo(m, t, k, n) + SlotKeys(m, t, n, k)
    ensures KeysTo(m, t, k, n) !! SlotKeys(m, t, n, k)
  {
    hide Present, Frame, Keys;
    forall x | x in KeysTo(m, t, k, n) ensures x !in SlotKeys(m, t, n, k) {
      if x != [] {
        var i: nat :| i < n && x in SlotKeys(m, t, i, k);
        assert x[0] == i;
      }
    }
  }

  lemma FootToStep(m: Mem, t: Pfn, k: nat, n: nat)
    requires k >= 1 && n < ENTRIES && IsTree(m, t, k, false)
    ensures FootTo(m, t, k, n + 1) == FootTo(m, t, k, n) + SlotFoot(m, t, n, k, false)
    ensures FootTo(m, t, k, n) !! SlotFoot(m, t, n, k, false)
  {
    hide Present, Frame, SlotFoot, IsTree;
    TreeParts(m, t, n, k, false);
  }

  lemma PartEnds(m: Mem, t: Pfn, k: nat)
    requires k >= 1
    ensures |KeysTo(m, t, k, 0)| == |FootTo(m, t, k, 0)| == 1
    ensures KeysTo(m, t, k, ENTRIES) == Keys(m, t, k) && FootTo(m, t, k, ENTRIES) == Foot(m, t, k, false)
  {
    hide SlotKeys, SlotFoot;
    assert KeysTo(m, t, k, 0) == {[]} && FootTo(m, t, k, 0) == {t};
  }

  /** In a tree, tables and the sequences that lead to them are equally many. */
  lemma {:induction false} KeysCount(m: Mem, t: Pfn, k: nat)
    requires k >= 1 && IsTree(m, t, k, false)
    ensures |Keys(m, t, k)| == |Foot(m, t, k, false)|
    decreases k, 0
  {
    hide *;
    PartEnds(m, t, k);
    var n := 0;
    while n < ENTRIES
      invariant n <= ENTRIES
      invariant |KeysTo(m, t, k, n)| == |FootTo(m, t, k, n)|
    {
      SlotCount(m, t, n, k);
      KeysToStep(m, t, k, n);
      FootToStep(m, t, k, n);
      n := n + 1;
    }
  }

  lemma SlotCount(m: Mem, t: Pfn, i: nat, k: nat)
    requires i < ENTRIES && k >= 1 && IsTree(m, t, k, false)
    ensures |SlotKeys(m, t, i, k)| == |SlotFoot(m, t, i, k, false)|
    decreases k - 1, 1
  {
    hide Present, Frame;
    if Present(m[t][i]) && k >= 2 {
      KeysCount(m, Frame(m[t][i]), k - 1);
      PrependSize(i, Keys(m, Frame(m[t][i]), k - 1));
    }
  }

  /** p with its level-k index replaced. */
  function Through(p: Path, k: nat, i: nat): (q: Path)
    requires 1 <= k <= 4
    ensures forall l :: 1 <= l <= 4 ==> q.At(l) == if l == k then i else p.At(l)
    ensures p.Valid() && i < ENTRIES ==> q.Valid()
  {
    if k == 4 then Path(i, p.pdpt, p.pd, p.pt)
    else if k == 3 then Path(p.pml4, i, p.pd, p.pt)
    else if k == 2 then Path(p.pml4, p.pdpt, i, p.pt)
    else Path(p.pml4, p.pdpt, p.pd, i)
  }

  lemma {:induction false} WalkThrough(m: Mem, t: Pfn, k: nat, j: nat, p: Path, i: nat)
    requires 1 <= j < k <= 4 && p.Valid() && i < ENTRIES
    ensures Walk(m, t, j, Through(p, k, i)) == Walk(m, t, j, p)
    decreases j
  {
    hide Present, Frame, Through;
    if j > 1 {
      WalkThrough(m, Frame(m[t][p.At(j)]), k, j - 1, p, i);
    }
  }

  lemma {:induction false} PrefixThrough(k: nat, j: nat, p: Path, i: nat, n: nat)
    requires n <= j < k <= 4
    ensures Prefix(Through(p, k, i), j, n) == Prefix(p, j, n)
    decreases n
  {
    hide Through;
    if n > 0 {
      PrefixThrough(k, j - 1, p, i, n - 1);
    }
  }

  // A mapped page below slot i of t, seen from t.
  lemma ExtendPath(m: Mem, t: Pfn, k: nat, i: nat, p: Path, n: nat)
    requires 2 <= k <= 4 && i < ENTRIES && p.Valid() && n <= k - 2
    requires Present(m[t][i]) && Walk(m, Frame(m[t][i]), k - 1, p) != 0
    ensures MappedPrefix(m, t, k, [i] + Prefix(p, k - 1, n))
    ensures Walk(m, t, k, Through(p, k, i)) != 0
  {
    hide Present, Frame, Through;
    var q := Through(p, k, i);
    WalkThrough(m, Frame(m[t][i]), k, k - 1, p, i);
    PrefixThrough(k, k - 1, p, i, n);
    PrefixLength(p, k - 1, n);
    assert Prefix(q, k, n + 1) == [i] + Prefix(p, k - 1, n);
  }

  lemma {:induction false} PrefixLength(p: Path, k: nat, n: nat)
    requires n <= k <= 4
    ensures |Prefix(p, k, n)| == n
    decreases n
  {
    if n > 0 {
      PrefixLength(p, k - 1, n - 1);
    }
  }

  /** Every table that is not empty leads to a mapped page, if none below it is empty. */
  lemma {:induction false} Leads(m: Mem, t: Pfn, k: nat) returns (p: Path)
    requires 1 <= k <= 4 && IsTree(m, t, k, false) && NoEmpty(m, t, k) && m[t] != ZeroPage()
    ensures p.Valid() && Walk(m, t, k, p) != 0
    decreases k
  {
    hide Present, Frame, IsTree;
    var i: nat :| i < ENTRIES && m[t][i] != 0;
    TreeParts(m, t, i, k, false);
    if k == 1 {
      p := Path(0, 0, 0, i);
    } else {
      var c := Frame(m[t][i]);
      p := Leads(m, c, k - 1);
      ExtendPath(m, t, k, i, p, 0);
      p := Through(p, k, i);
    }
  }

  /** The sequences that lead to tables are the prefixes of mapped pages. */
  lemma {:induction false} KeysArePrefixes(m: Mem, t: Pfn, k: nat, x: seq<nat>)
    requires 1 <= k <= 4 && IsTree(m, t, k, false) && NoEmpty(m, t, k)
    requires x != []
    ensures x in Keys(m, t, k) <==> MappedPrefix(m, t, k, x)
    decreases k
  {
    hide Present, Frame, IsTree, Walk, NoEmpty;
    if x in Keys(m, t, k) {
      KeyIsPrefix(m, t, k, x);
    }
    if MappedPrefix(m, t, k, x) {
      PrefixIsKey(m, t, k, x);
    }
  }

  lemma {:induction false} KeyIsPrefix(m: Mem, t: Pfn, k: nat, x: seq<nat>)
    requires 1 <= k <= 4 && IsTree(m, t, k, false) && NoEmpty(m, t, k)
    requires x != [] && x in Keys(m, t, k)
    ensures MappedPrefix(m, t, k, x)
    decreases k
  {
    hide Present, Frame, IsTree, Walk;
    var i: nat :| i < ENTRIES && x in SlotKeys(m, t, i, k);
    var c := Frame(m[t][i]);
    var y :| y in Keys(m, c, k - 1) && x == [i] + y;
    TreeParts(m, t, i, k, false);
    var p: Path;
    if y == [] {
      p := Leads(m, c, k - 1);
    } else {
      KeyIsPrefix(m, c, k - 1, y);
      p :| p.Valid() && Walk(m, c, k - 1, p) != 0 && y == Prefix(p, k - 1, |y|);
    }
    ExtendPath(m, t, k, i, p, |y|);
  }

  lemma WalkDown(m: Mem, t: Pfn, k: nat, p: Path)
    requires 2 <= k <= 4 && p.Valid() && Walk(m, t, k, p) != 0
    ensures Present(m[t][p.At(k)]) && Walk(m, Frame(m[t][p.At(k)]), k - 1, p) != 0
  {
    hide Present, Frame;
  }

  lemma PrefixTail(m: Mem, t: Pfn, k: nat, x: seq<nat>)
    requires 1 <= k <= 4 && x != [] && MappedPrefix(m, t, k, x)
    ensures k >= 2 && x[0] < ENTRIES && Present(m[t][x[0]]) && MappedPrefix(m, Frame(m[t][x[0]]), k - 1, x[1..])
  {
    hide Present, Frame, Walk;
    var p: Path :| p.Valid() && Walk(m, t, k, p) != 0 && x == Prefix(p, k, |x|);
    WalkDown(m, t, k, p);
    assert x[1..] == Prefix(p, k - 1, |x| - 1);
  }

  lemma {:induction false} PrefixIsKey(m: Mem, t: Pfn, k: nat, x: seq<nat>)
    requires 1 <= k <= 4 && x != [] && MappedPrefix(m, t, k, x)
    ensures x in Keys(m, t, k)
    decreases k
  {
    hide Present, Frame, MappedPrefix;
    PrefixTail(m, t, k, x);
    if x[1..] != [] {
      PrefixIsKey(m, Frame(m[t][x[0]]), k - 1, x[1..]);
    }
    assert x == [x[0]] + x[1..];
    assert x in SlotKeys(m, t, x[0], k);
  }

  /** The table pages of a pagemap without empty tables number one, for the root, plus one for each distinct
      pml4, pml4-pdpt and pml4-pdpt-pd prefix of the mapped pages. */
  lemma TableCount(m: Mem, root: Pfn) returns (prefixes: set<seq<nat>>)
    requires IsTree(m, root, 4, false) && NoEmpty(m, root, 4)
    ensures forall x :: x in prefixes <==> x != [] && MappedPrefix(m, root, 4, x)
    ensures |Foot(m, root, 4, false)| == 1 + |prefixes|
  {
    hide Present, Frame, IsTree, NoEmpty, MappedPrefix;
    prefixes := Keys(m, root, 4) - {[]};
    KeysCount(m, root, 4);
    forall x | x != [] ensures x in prefixes <==> MappedPrefix(m, root, 4, x) {
      KeysArePrefixes(m, root, 4, x);
    }
    assert Keys(m, root, 4) == prefixes + {[]};
  }
}
