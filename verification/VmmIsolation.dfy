/** Two pagemaps that are apart stay apart: what one maps, unmaps, allocates or stores, the other never notices. */
module VmmIsolation {
  import opened Pte
  import opened PageTree
  import opened PhysMem
  import opened VmmSpec
  import opened VmmMap
  import opened VmmRun
  import opened VmmCount
  import opened CloneSpec
  import opened VmmClone
  import opened CloneTheorems

  /** What a process can do through its pagemap: have pages mapped and unmapped, have a page allocated and mapped,
      and write to a mapped page. */
  datatype Access =
    | MapIn(va: bv64, pa: bv64, flags: bv64)
    | MapOut(va: bv64)
    | Fresh(va: bv64, flags: bv64)
    | Store(va: bv64, word: nat, value: bv64)

  ghost function Do(s: Phys, root: Pfn, a: Access): Phys {
    match a
    case MapIn(va, pa, flags) => Exec(s, Map(root, va, pa, flags)).0
    case MapOut(va) => Exec(s, Unmap(root, va)).0
    case Fresh(va, flags) =>
      var (s1, f) := Allocated(s);
      if f == 0 then s else Exec(s1, Map(root, va, Addr(f), flags)).0
    case Store(va, word, value) =>
      var e := Walk(s.mem, root, 4, PathOf(va));
      if Present(e) && word < ENTRIES then Phys(Write(s.mem, Frame(e), word, value), s.free, s.top) else s
  }

  ghost function DoAll(s: Phys, root: Pfn, run: seq<Access>): Phys
    decreases |run|
  {
    if run == [] then s else DoAll(Do(s, root, run[0]), root, run[1..])
  }

  /** The frames root's pagemap is built from, or may come to be built from. */
  ghost function Stock(s: Phys, root: Pfn): set<Pfn> {
    s.free + Tables(s.mem, root)
  }

  /** A frame mapped by address is, at that time, neither free, nor a table of root's, nor one of b; a page
      allocated to be mapped may be any, with flags that leave its address alone. */
  ghost predicate Permitted(s: Phys, root: Pfn, a: Access, b: set<Pfn>) {
    match a
    case MapIn(va, pa, flags) => var f := Frame(LeafEntry(pa, flags)); f !in Stock(s, root) && f !in b
    case Fresh(va, flags) => flags & ADDR_MASK == 0
    case _ => true
  }

  ghost predicate AllPermitted(s: Phys, root: Pfn, run: seq<Access>, b: set<Pfn>)
    decreases |run|
  {
    run == [] || (Permitted(s, root, run[0], b) && AllPermitted(Do(s, root, run[0]), root, run[1..], b))
  }

  /** root's pagemap is a tree of its own tables, and neither it nor the free pages touch the frames b. */
  ghost predicate Isolated(s: Phys, root: Pfn, b: set<Pfn>) {
    && Sane(s) && Owned(s, root, 4, false)
    && Stock(s, root) !! b
    && forall p: Path :: p.Valid() && Present(Walk(s.mem, root, 4, p)) ==>
         Frame(Walk(s.mem, root, 4, p)) !in b && Frame(Walk(s.mem, root, 4, p)) !in Stock(s, root)
  }

  /** The frames b are untouched, and the stock has not grown. */
  ghost predicate Spared(s: Phys, s1: Phys, root: Pfn, b: set<Pfn>) {
    && Isolated(s1, root, b) && Stock(s1, root) <= Stock(s, root) && s1.top == s.top
    && forall q: Pfn :: q in b ==> s1.mem[q] == s.mem[q]
  }

  lemma MapInSpares(s: Phys, root: Pfn, va: bv64, pa: bv64, flags: bv64, b: set<Pfn>)
    requires Isolated(s, root, b) && Permitted(s, root, MapIn(va, pa, flags), b)
    ensures Spared(s, Do(s, root, MapIn(va, pa, flags)), root, b)
  {
    hide Owned, Walk, PathOf, Frame, Present, LeafEntry, Tables, Mapped;
    var s1 := Do(s, root, MapIn(va, pa, flags));
    ExecConfined(s, Map(root, va, pa, flags));
    forall p: Path | p.Valid() && Present(Walk(s1.mem, root, 4, p))
      ensures Frame(Walk(s1.mem, root, 4, p)) !in b && Frame(Walk(s1.mem, root, 4, p)) !in Stock(s, root)
    {
      MapWalkPath(s, root, va, pa, flags, p);
    }
  }

  lemma MapOutSpares(s: Phys, root: Pfn, va: bv64, b: set<Pfn>)
    requires Isolated(s, root, b)
    ensures Spared(s, Do(s, root, MapOut(va)), root, b)
  {
    hide Owned, Walk, PathOf, Frame, Present, Tables, Unmapped;
    var s1 := Do(s, root, MapOut(va));
    ExecConfined(s, Unmap(root, va));
    WalkZeroOrPresent(s, root, va);
    ZeroAbsent();
    forall p: Path | p.Valid() && Present(Walk(s1.mem, root, 4, p))
      ensures Frame(Walk(s1.mem, root, 4, p)) !in b && Frame(Walk(s1.mem, root, 4, p)) !in Stock(s, root)
    {
      UnmapWalkPath(s, root, va, p);
    }
  }

  lemma WalkZeroOrPresent(s: Phys, root: Pfn, va: bv64)
    requires Owned(s, root, 4, false)
    ensures Walk(s.mem, root, 4, PathOf(va)) == 0 || Present(Walk(s.mem, root, 4, PathOf(va)))
  {
    hide PathOf;
    ZeroOrPresent(s.mem, root, 4, PathOf(va));
  }

  lemma {:induction false} ZeroOrPresent(m: Mem, t: Pfn, k: nat, p: Path)
    requires 1 <= k <= 4 && p.Valid() && IsTree(m, t, k, false)
    ensures Walk(m, t, k, p) == 0 || Present(Walk(m, t, k, p))
    decreases k
  {
    hide Present, Frame, IsTree, Foot, SlotFoot;
    TreeParts(m, t, p.At(k), k, false);
    if k > 1 && Present(m[t][p.At(k)]) {
      ZeroOrPresent(m, Frame(m[t][p.At(k)]), k - 1, p);
    }
  }

  // A change of frames that are not root's tables, with no more free pages than before.
  lemma TablesUntouched(s: Phys, s1: Phys, root: Pfn, b: set<Pfn>)
    requires Isolated(s, root, b) && s1.free <= s.free && s1.top == s.top
    requires forall q: Pfn :: q in Tables(s.mem, root) || q in b ==> s1.mem[q] == s.mem[q]
    ensures Spared(s, s1, root, b) && Tables(s1.mem, root) == Tables(s.mem, root)
  {
    hide Walk, Frame, Present, IsTree, Foot;
    FootFrame(s.mem, s1.mem, root, 4, false);
    forall p: Path | p.Valid() ensures Walk(s1.mem, root, 4, p) == Walk(s.mem, root, 4, p) {
      WalkFrame(s.mem, s1.mem, root, 4, p);
    }
  }

  lemma StoreSpares(s: Phys, root: Pfn, va: bv64, word: nat, value: bv64, b: set<Pfn>)
    requires Isolated(s, root, b)
    ensures Spared(s, Do(s, root, Store(va, word, value)), root, b)
  {
    hide Walk, PathOf, Frame, Present, Tables, Owned, Spared;
    TablesUntouched(s, Do(s, root, Store(va, word, value)), root, b);
  }

  /** Allocating a page takes it out of the stock and leaves b alone. */
  lemma AllocateSpares(s: Phys, root: Pfn, b: set<Pfn>)
    requires Isolated(s, root, b) && s.free != {}
    ensures var (s1, f) := Allocated(s);
      && Spared(s, s1, root, b) && f in Stock(s, root) && Stock(s1, root) == Stock(s, root) - {f}
  {
    hide Walk, Frame, Present, IsTree, Foot, Spared;
    TablesUntouched(s, Allocated(s).0, root, b);
  }

  lemma SparedTrans(s: Phys, s1: Phys, s2: Phys, root: Pfn, b: set<Pfn>)
    requires Spared(s, s1, root, b) && Spared(s1, s2, root, b)
    ensures Spared(s, s2, root, b)
  {
    hide Isolated, Stock;
  }

  lemma FreshSpares(s: Phys, root: Pfn, va: bv64, flags: bv64, b: set<Pfn>)
    requires Isolated(s, root, b) && flags & ADDR_MASK == 0
    ensures Spared(s, Do(s, root, Fresh(va, flags)), root, b)
  {
    var (s1, f) := Allocated(s);
    SameIsSpared(s, root, b);
    if f != 0 {
      AllocateSpares(s, root, b);
      LeafFrame(f, flags);
      FreshIsMapIn(s, root, va, flags);
      hide Frame, LeafEntry, Addr, Do, Isolated;
      assert Isolated(s1, root, b) && f !in Stock(s1, root) && f !in b by { Disjoint(s, root, f, b); }
      MapInSpares(s1, root, va, Addr(f), flags, b);
      hide Spared;
      SparedTrans(s, s1, Do(s1, root, MapIn(va, Addr(f), flags)), root, b);
    }
  }

  lemma FreshIsMapIn(s: Phys, root: Pfn, va: bv64, flags: bv64)
    ensures var (s1, f) := Allocated(s);
      Do(s, root, Fresh(va, flags)) == if f == 0 then s else Do(s1, root, MapIn(va, Addr(f), flags))
  {
    hide Addr, Mapped;
  }

  // The allocated page, before it is mapped.
  lemma PageTaken(s: Phys, root: Pfn, p: Path, b: set<Pfn>)
    requires Isolated(s, root, b) && s.free != {} && p.Valid()
    ensures var (s1, f) := Allocated(s);
      && Isolated(s1, root, b) && f in s.free && f != 0 && f !in Stock(s1, root)
      && (forall i: nat :: i < 512 ==> s1.mem[f][i] == 0) && |s1.free| == |s.free| - 1
      && Missing(s1.mem, root, 4, p) == Missing(s.mem, root, 4, p)
      && Walk(s1.mem, root, 4, p) == Walk(s.mem, root, 4, p)
  {
    AllocateSpares(s, root, b);
    hide Present, Frame, Walk, IsTree, Foot, Missing;
    MissingFrame(s.mem, Allocated(s).0.mem, root, 4, p);
    WalkFrame(s.mem, Allocated(s).0.mem, root, 4, p);
  }

  // And after it.
  lemma PageMapped(s: Phys, root: Pfn, va: bv64, f: Pfn, flags: bv64, b: set<Pfn>)
    requires Isolated(s, root, b) && f !in Stock(s, root) && flags & ADDR_MASK == 0
    ensures var (s1, ok) := Exec(s, Map(root, va, Addr(f), flags));
      var e := Walk(s1.mem, root, 4, PathOf(va));
      && s1.mem[f] == s.mem[f] && (ok <==> Missing(s.mem, root, 4, PathOf(va)) <= |s.free|)
      && if ok then Present(e) && Frame(e) == f else e == Walk(s.mem, root, 4, PathOf(va))
  {
    LeafFrame(f, flags);
    hide PathOf, LeafEntry, Addr, Present, Frame, Walk, Owned, Missing, Plant, TableFlags, TableFlagsFor, Tables;
    ExecConfined(s, Map(root, va, Addr(f), flags));
    MapWalkPath(s, root, va, Addr(f), flags, PathOf(va));
    LeafPresent(Addr(f), flags);
    TableFlagsGood(flags);
    PlantOutcome(s, root, 4, PathOf(va), TableFlagsFor(flags), LeafEntry(Addr(f), flags));
  }

  /** Allocating a page and mapping it succeeds exactly if free memory holds the page and the missing tables; then the
      page at va is one that was free, and reads zero in all its words: nothing of what it held before is left. */
  lemma FreshIsZero(s: Phys, root: Pfn, va: bv64, flags: bv64, b: set<Pfn>)
    requires Isolated(s, root, b) && flags & ADDR_MASK == 0
    ensures var s1 := Do(s, root, Fresh(va, flags)); var e := Walk(s1.mem, root, 4, PathOf(va));
      && (Present(e) && Frame(e) in s.free <==> Missing(s.mem, root, 4, PathOf(va)) < |s.free|)
      && (Present(e) && Frame(e) in s.free ==> forall i: nat :: i < 512 ==> s1.mem[Frame(e)][i] == 0)
  {
    hide PathOf, Addr, Present, Frame, Walk, Owned, Missing, Exec, Tables;
    if s.free != {} {
      var (s1, f) := Allocated(s);
      PageTaken(s, root, PathOf(va), b);
      PageMapped(s1, root, va, f, flags, b);
    }
  }

  lemma Disjoint(s: Phys, root: Pfn, f: Pfn, b: set<Pfn>)
    requires Isolated(s, root, b) && f in Stock(s, root)
    ensures f !in b
  {
    hide Owned, Walk, Tables;
  }

  lemma SameIsSpared(s: Phys, root: Pfn, b: set<Pfn>)
    requires Isolated(s, root, b)
    ensures Spared(s, s, root, b)
  {
    hide Isolated;
  }

  /** A map, unmap, allocation or store through a pagemap cannot reach a set of frames apart from it. */
  lemma StepIsolated(s: Phys, root: Pfn, a: Access, b: set<Pfn>)
    requires Isolated(s, root, b) && Permitted(s, root, a, b)
    ensures Spared(s, Do(s, root, a), root, b)
  {
    hide Isolated, Spared, Do;
    match a {
      case MapIn(va, pa, flags) => MapInSpares(s, root, va, pa, flags, b);
      case MapOut(va) => MapOutSpares(s, root, va, b);
      case Fresh(va, flags) => FreshSpares(s, root, va, flags, b);
      case Store(va, word, value) => StoreSpares(s, root, va, word, value, b);
    }
  }

  /** Over any run, the frames b keep their contents and stay out of reach. */
  lemma {:induction false} RunIsolated(s: Phys, root: Pfn, run: seq<Access>, b: set<Pfn>)
    requires Isolated(s, root, b) && AllPermitted(s, root, run, b)
    ensures Spared(s, DoAll(s, root, run), root, b)
    decreases |run|
  {
    hide Do, Permitted;
    SameIsSpared(s, root, b);
    hide Isolated;
    if run != [] {
      StepIsolated(s, root, run[0], b);
      RunIsolated(Do(s, root, run[0]), root, run[1..], b);
      SparedTrans(s, Do(s, root, run[0]), DoAll(s, root, run), root, b);
    }
  }

  /** Everything pagemap r can reach: its tables and the frames it maps. */
  ghost function Reach(m: Mem, r: Pfn): set<Pfn> {
    Foot(m, r, 4, true)
  }

  /** Pagemap r translates the same addresses to the same frames with the same contents. */
  ghost predicate SameView(m: Mem, n: Mem, r: Pfn) {
    forall p: Path :: p.Valid() ==>
      && Walk(n, r, 4, p) == Walk(m, r, 4, p)
      && (Present(Walk(m, r, 4, p)) ==> n[Frame(Walk(m, r, 4, p))] == m[Frame(Walk(m, r, 4, p))])
  }

  lemma SameReachSameView(m: Mem, n: Mem, r: Pfn)
    requires forall q: Pfn :: q in Reach(m, r) ==> n[q] == m[q]
    ensures SameView(m, n, r) && Reach(n, r) == Reach(m, r)
  {
    hide Walk, Foot, Present, Frame;
    TablesInFoot(m, r, 4);
    FootFrame(m, n, r, 4, true);
    forall p: Path | p.Valid()
      ensures Walk(n, r, 4, p) == Walk(m, r, 4, p)
      ensures Present(Walk(m, r, 4, p)) ==> n[Frame(Walk(m, r, 4, p))] == m[Frame(Walk(m, r, 4, p))]
    {
      WalkFrame(m, n, r, 4, p);
      if Present(Walk(m, r, 4, p)) {
        LeafOwned(m, r, 4, p);
      }
    }
  }

  // What is reached is a table or the frame of some mapped page.
  lemma {:induction false} ReachIs(m: Mem, t: Pfn, k: nat, q: Pfn) returns (p: Path)
    requires 1 <= k <= 4 && q in Foot(m, t, k, true) && q !in Foot(m, t, k, false)
    ensures p.Valid() && Present(Walk(m, t, k, p)) && Frame(Walk(m, t, k, p)) == q
    decreases k
  {
    hide Present, Frame, Through, Foot, SlotFoot, Walk;
    var i := ReachSlot(m, t, k, q);
    var c := Frame(m[t][i]);
    if k == 1 {
      p := Path(0, 0, 0, i);
      ReachLeaf(m, t, i, p);
    } else {
      var r := ReachIs(m, c, k - 1, q);
      p := Through(r, k, i);
      WalkThrough(m, c, k, k - 1, r, i);
      WalkInto(m, t, k, p);
    }
  }

  lemma ReachSlot(m: Mem, t: Pfn, k: nat, q: Pfn) returns (i: nat)
    requires 1 <= k <= 4 && q in Foot(m, t, k, true) && q !in Foot(m, t, k, false)
    ensures i < ENTRIES && Present(m[t][i])
    ensures q in Foot(m, Frame(m[t][i]), k - 1, true) && q !in Foot(m, Frame(m[t][i]), k - 1, false)
    ensures k == 1 ==> q == Frame(m[t][i])
  {
    hide Present, Frame;
    i :| i < ENTRIES && q in SlotFoot(m, t, i, k, true);
    assert q !in SlotFoot(m, t, i, k, false);
  }

  lemma ReachLeaf(m: Mem, t: Pfn, i: nat, p: Path)
    requires i < ENTRIES && p == Path(0, 0, 0, i)
    ensures Walk(m, t, 1, p) == m[t][i]
  {
  }

  lemma WalkInto(m: Mem, t: Pfn, k: nat, p: Path)
    requires 2 <= k <= 4 && p.Valid() && Present(m[t][p.At(k)])
    ensures Walk(m, t, k, p) == Walk(m, Frame(m[t][p.At(k)]), k - 1, p)
  {
    hide Present, Frame;
  }

  lemma ReachCases(s: Phys, x: Pfn, b: set<Pfn>, q: Pfn)
    requires Isolated(s, x, b) && q in Reach(s.mem, x)
    ensures q !in b && q !in s.free
  {
    hide Walk, Foot, IsTree, Present, Frame;
    if q !in Tables(s.mem, x) {
      var p := ReachIs(s.mem, x, 4, q);
    }
  }

  /** An isolated pagemap can be cloned: all it reaches is in use. */
  lemma IsolatedIsSource(s: Phys, root: Pfn, b: set<Pfn>)
    requires Isolated(s, root, b)
    ensures Source(s.mem, s, root, 4)
  {
    hide Isolated;
    forall q | q in Foot(s.mem, root, 4, true) ensures q !in s.free {
      ReachCases(s, root, b, q);
    }
  }

  /** A pagemap starts out isolated, empty on a zeroed page, and RunIsolated keeps it so. */
  lemma EmptyIsolated(s: Phys, root: Pfn)
    requires Sane(s) && s.mem[root] == ZeroPage() && root !in s.free && 0 < root <= s.top
    ensures Isolated(s, root, {})
  {
    hide IsTree, Foot, Walk;
    ZeroTree(s.mem, root, 4);
    ZeroAbsent();
    forall p: Path | p.Valid() ensures Walk(s.mem, root, 4, p) == 0 {
      ZeroWalk(s.mem, root, 4, p);
    }
  }

  /** Two pagemaps with tables of their own, neither reaching what the other reaches. */
  ghost predicate Apart(s: Phys, x: Pfn, y: Pfn) {
    Isolated(s, x, Reach(s.mem, y)) && Isolated(s, y, Reach(s.mem, x))
  }

  // Pagemap y is not touched: what it reaches keeps its contents and stays in use.
  ghost predicate LeftAlone(s: Phys, s1: Phys, y: Pfn) {
    && Sane(s1) && s1.top == s.top && s1.free !! Reach(s.mem, y)
    && forall q: Pfn :: q in Reach(s.mem, y) ==> s1.mem[q] == s.mem[q]
  }

  // An untouched pagemap stays what it is, and isolated from whatever its reach is disjoint from.
  lemma StaysIsolated(s: Phys, s1: Phys, y: Pfn, b: set<Pfn>, b1: set<Pfn>)
    requires Isolated(s, y, b) && LeftAlone(s, s1, y) && b1 !! s1.free + Reach(s.mem, y)
    ensures SameView(s.mem, s1.mem, y) && Reach(s1.mem, y) == Reach(s.mem, y)
    ensures Isolated(s1, y, b1)
  {
    StaysOwned(s, s1, y);
    SameReachSameView(s.mem, s1.mem, y);
    hide Owned, Reach, Tables, LeftAlone;
    forall p: Path | p.Valid() && Present(Walk(s1.mem, y, 4, p))
      ensures Frame(Walk(s1.mem, y, 4, p)) in Reach(s.mem, y) && Frame(Walk(s1.mem, y, 4, p)) !in Tables(s.mem, y)
    {
      LeafReached(s, y, p);
    }
    hide SameView;
    OnlyReach(s, s1, y, b1);
  }

  lemma StaysOwned(s: Phys, s1: Phys, y: Pfn)
    requires Owned(s, y, 4, false) && LeftAlone(s, s1, y)
    ensures Owned(s1, y, 4, false) && Tables(s1.mem, y) == Tables(s.mem, y) <= Reach(s.mem, y)
    ensures Sane(s1) && s1.free !! Reach(s.mem, y)
  {
    hide Foot, IsTree;
    TablesInFoot(s.mem, y, 4);
    FootFrame(s.mem, s1.mem, y, 4, false);
  }

  lemma LeafReached(s: Phys, y: Pfn, p: Path)
    requires p.Valid() && Present(Walk(s.mem, y, 4, p))
    ensures Frame(Walk(s.mem, y, 4, p)) in Reach(s.mem, y)
  {
    hide Walk, Foot, Present, Frame;
    LeafOwned(s.mem, y, 4, p);
  }

  // Set algebra of the above.
  lemma OnlyReach(s: Phys, s1: Phys, y: Pfn, b1: set<Pfn>)
    requires Sane(s1) && Owned(s1, y, 4, false) && Tables(s1.mem, y) == Tables(s.mem, y) <= Reach(s.mem, y)
    requires s1.free !! Reach(s.mem, y) && b1 !! s1.free + Reach(s.mem, y)
    requires forall p: Path :: p.Valid() && Present(Walk(s1.mem, y, 4, p)) ==>
               Frame(Walk(s1.mem, y, 4, p)) in Reach(s.mem, y) && Frame(Walk(s1.mem, y, 4, p)) !in Tables(s.mem, y)
    ensures Isolated(s1, y, b1)
  {
    hide Walk, Present, Frame, Reach, Tables, Owned;
  }

  // What x did spares y's reach, so y is as isolated from x's reach as before.
  lemma OtherIsolated(s: Phys, s1: Phys, x: Pfn, y: Pfn)
    requires Apart(s, x, y) && Spared(s, s1, x, Reach(s.mem, y))
    ensures SameView(s.mem, s1.mem, y) && Reach(s1.mem, y) == Reach(s.mem, y)
    ensures Isolated(s1, y, Reach(s1.mem, x))
  {
    hide Walk, Foot, Present, Frame, IsTree, SameView;
    forall q: Pfn | q in Reach(s1.mem, x) ensures q !in Reach(s.mem, y) && q !in s1.free {
      ReachCases(s1, x, Reach(s.mem, y), q);
    }
    StaysIsolated(s, s1, y, Reach(s.mem, x), Reach(s1.mem, x));
  }

  /** An access of one keeps the two apart, and the other sees nothing of it. */
  lemma StepKeepsApart(s: Phys, x: Pfn, y: Pfn, a: Access)
    requires Apart(s, x, y) && Permitted(s, x, a, Reach(s.mem, y))
    ensures Apart(Do(s, x, a), x, y) && SameView(s.mem, Do(s, x, a).mem, y)
  {
    hide Do, Permitted, Reach, SameView;
    StepIsolated(s, x, a, Reach(s.mem, y));
    OtherIsolated(s, Do(s, x, a), x, y);
  }

  /** One step of two processes: the first's or the second's. */
  datatype Turn = First(a: Access) | Second(a: Access)

  ghost function DoTurn(s: Phys, x: Pfn, y: Pfn, t: Turn): Phys {
    Do(s, if t.First? then x else y, t.a)
  }

  ghost function DoTurns(s: Phys, x: Pfn, y: Pfn, ts: seq<Turn>): Phys
    decreases |ts|
  {
    if ts == [] then s else DoTurns(DoTurn(s, x, y, ts[0]), x, y, ts[1..])
  }

  /** Each maps by address only what neither reaches and is not free, at the time. */
  ghost predicate TurnsPermitted(s: Phys, x: Pfn, y: Pfn, ts: seq<Turn>)
    decreases |ts|
  {
    ts == []
    || (&& (if ts[0].First? then Permitted(s, x, ts[0].a, Reach(s.mem, y))
            else Permitted(s, y, ts[0].a, Reach(s.mem, x)))
        && TurnsPermitted(DoTurn(s, x, y, ts[0]), x, y, ts[1..]))
  }

  lemma TurnKeepsApart(s: Phys, x: Pfn, y: Pfn, ts: seq<Turn>)
    requires Apart(s, x, y) && ts != [] && TurnsPermitted(s, x, y, ts)
    ensures var s1 := DoTurn(s, x, y, ts[0]);
      Apart(s1, x, y) && TurnsPermitted(s1, x, y, ts[1..]) && SameView(s.mem, s1.mem, if ts[0].First? then y else x)
  {
    hide Do, Permitted, Reach, SameView, Isolated;
    if ts[0].First? {
      StepKeepsApart(s, x, y, ts[0].a);
    } else {
      StepKeepsApart(s, y, x, ts[0].a);
    }
  }

  /** The state after the first k steps. */
  ghost function AfterTurns(s: Phys, x: Pfn, y: Pfn, ts: seq<Turn>, k: nat): Phys
    requires k <= |ts|
  {
    DoTurns(s, x, y, ts[..k])
  }

  /** The k-th step keeps the two apart and leaves the view of the one that did not make it as it was. */
  ghost predicate Unnoticed(s: Phys, x: Pfn, y: Pfn, ts: seq<Turn>, k: nat)
    requires k < |ts|
  {
    var before, after := AfterTurns(s, x, y, ts, k), AfterTurns(s, x, y, ts, k + 1);
    Apart(before, x, y) && Apart(after, x, y) && SameView(before.mem, after.mem, if ts[k].First? then y else x)
  }

  lemma FirstUnnoticed(s: Phys, x: Pfn, y: Pfn, ts: seq<Turn>)
    requires Apart(s, x, y) && ts != [] && TurnsPermitted(s, x, y, ts)
    ensures Unnoticed(s, x, y, ts, 0)
  {
    hide DoTurn, AfterTurns, Apart, SameView, TurnsPermitted;
    TurnKeepsApart(s, x, y, ts);
    TakeTurns(s, x, y, ts, 0);
    TakeTurns(s, x, y, ts, 1);
    TakeTurns(DoTurn(s, x, y, ts[0]), x, y, ts[1..], 0);
  }

  lemma LaterUnnoticed(s: Phys, x: Pfn, y: Pfn, ts: seq<Turn>, k: nat)
    requires 1 <= k < |ts| && Unnoticed(DoTurn(s, x, y, ts[0]), x, y, ts[1..], k - 1)
    ensures Unnoticed(s, x, y, ts, k)
  {
    hide DoTurn, AfterTurns, Apart, SameView;
    TakeTurns(s, x, y, ts, k);
    TakeTurns(s, x, y, ts, k + 1);
    SameTurn(ts, k);
  }

  /** However the steps of two processes interleave, each step leaves the other's view exactly as it was. */
  lemma {:induction false} Interleaved(s: Phys, x: Pfn, y: Pfn, ts: seq<Turn>, k: nat)
    requires Apart(s, x, y) && TurnsPermitted(s, x, y, ts) && k < |ts|
    ensures Unnoticed(s, x, y, ts, k)
    decreases k
  {
    hide DoTurn, Apart, SameView, TurnsPermitted, Unnoticed;
    if k == 0 {
      FirstUnnoticed(s, x, y, ts);
    } else {
      TurnKeepsApart(s, x, y, ts);
      Interleaved(DoTurn(s, x, y, ts[0]), x, y, ts[1..], k - 1);
      LaterUnnoticed(s, x, y, ts, k);
    }
  }

  lemma SameTurn(ts: seq<Turn>, k: nat)
    requires 1 <= k < |ts|
    ensures ts[1..][k - 1] == ts[k]
  {
  }

  lemma TakeTurns(s: Phys, x: Pfn, y: Pfn, ts: seq<Turn>, k: nat)
    requires k <= |ts|
    ensures k == 0 ==> AfterTurns(s, x, y, ts, k) == s
    ensures k >= 1 ==> AfterTurns(s, x, y, ts, k) == AfterTurns(DoTurn(s, x, y, ts[0]), x, y, ts[1..], k - 1)
  {
    hide DoTurn;
    if k >= 1 {
      assert ts[..k][0] == ts[0] && ts[..k][1..] == ts[1..][..k - 1];
    }
  }

  lemma {:induction false} TreeForgetsLeaves(m: Mem, t: Pfn, k: nat)
    requires IsTree(m, t, k, true)
    ensures IsTree(m, t, k, false)
    decreases k
  {
    hide Present, Frame;
    if k > 0 {
      forall i: nat | i < ENTRIES ensures SlotFoot(m, t, i, k, false) <= SlotFoot(m, t, i, k, true) {
        SlotTables(m, t, i, k);
      }
      forall i: nat | i < ENTRIES && Present(m[t][i]) ensures IsTree(m, Frame(m[t][i]), k - 1, false) {
        TreeForgetsLeaves(m, Frame(m[t][i]), k - 1);
      }
    }
  }

  lemma ClonedSane(s0: Phys, s1: Phys, root: Pfn, child: Pfn)
    requires Sane(s0) && Cloned(s0, s1, root, child)
    ensures Sane(s1)
  {
    hide Foot, IsTree, IsCopy, Need;
  }

  lemma ChildIsolated(s0: Phys, s1: Phys, root: Pfn, child: Pfn)
    requires Sane(s0) && Cloned(s0, s1, root, child) && Source(s0.mem, s0, root, 4)
    ensures Isolated(s1, TopLevel(s1.mem, child), Reach(s0.mem, root))
  {
    hide Walk, Foot, Present, Frame, TopLevel, IsTree, IsCopy, Need;
    ClonedSane(s0, s1, root, child);
    var c := TopLevel(s1.mem, child);
    TablesInFoot(s1.mem, c, 4);
    TreeForgetsLeaves(s1.mem, c, 4);
    forall p: Path | p.Valid() && Present(Walk(s1.mem, c, 4, p))
      ensures Frame(Walk(s1.mem, c, 4, p)) !in Reach(s0.mem, root) && Frame(Walk(s1.mem, c, 4, p)) !in Stock(s1, c)
    {
      LeafOwned(s1.mem, c, 4, p);
      assert Frame(Walk(s1.mem, c, 4, p)) in s0.free - s1.free;
    }
    assert Stock(s1, c) !! Reach(s0.mem, root) by {
      assert Foot(s1.mem, c, 4, true) <= s0.free - s1.free;
    }
  }

  lemma SourceIsolated(s0: Phys, s1: Phys, root: Pfn, child: Pfn)
    requires Sane(s0) && Cloned(s0, s1, root, child) && Source(s0.mem, s0, root, 4)
    requires Isolated(s0, root, {})
    ensures Isolated(s1, root, Reach(s1.mem, TopLevel(s1.mem, child)))
  {
    hide Foot, TopLevel, IsTree, IsCopy, Need, SameView, Isolated;
    ClonedSane(s0, s1, root, child);
    assert Foot(s1.mem, TopLevel(s1.mem, child), 4, true) <= s0.free - s1.free;
    StaysIsolated(s0, s1, root, {}, Reach(s1.mem, TopLevel(s1.mem, child)));
  }

  lemma SourceUnchanged(s0: Phys, s1: Phys, root: Pfn, child: Pfn)
    requires Cloned(s0, s1, root, child) && Source(s0.mem, s0, root, 4)
    ensures SameView(s0.mem, s1.mem, root) && Reach(s1.mem, root) == Reach(s0.mem, root)
  {
    hide Foot, TopLevel, IsTree, IsCopy, Need;
    SameReachSameView(s0.mem, s1.mem, root);
  }

  /** A clone and its source are apart. */
  lemma CloneApart(s0: Phys, s1: Phys, root: Pfn, child: Pfn)
    requires Cloned(s0, s1, root, child) && Isolated(s0, root, {})
    ensures Apart(s1, root, TopLevel(s1.mem, child)) && SameView(s0.mem, s1.mem, root)
  {
    assert Sane(s0);
    IsolatedIsSource(s0, root, {});
    hide Cloned, Source, Isolated, Reach, TopLevel, SameView, Sane;
    SourceUnchanged(s0, s1, root, child);
    ChildIsolated(s0, s1, root, child);
    SourceIsolated(s0, s1, root, child);
  }

  /** After cloning, however parent and child interleave, no step of one changes what the other translates or what
      its frames hold. */
  lemma CloneInterleaved(s0: Phys, s1: Phys, root: Pfn, child: Pfn, ts: seq<Turn>, k: nat)
    requires Cloned(s0, s1, root, child) && Isolated(s0, root, {})
    requires TurnsPermitted(s1, root, TopLevel(s1.mem, child), ts) && k < |ts|
    ensures Unnoticed(s1, root, TopLevel(s1.mem, child), ts, k)
  {
    hide Cloned, Source, Isolated, Reach, TopLevel, SameView, Apart, TurnsPermitted, Unnoticed;
    CloneApart(s0, s1, root, child);
    Interleaved(s1, root, TopLevel(s1.mem, child), ts, k);
  }

  /** No run through the child changes what the source translates or what its frames hold, even if the source maps
      its own tables or the same frame twice. */
  lemma ChildRunKeepsSource(s0: Phys, s1: Phys, root: Pfn, child: Pfn, run: seq<Access>)
    requires Sane(s0) && Cloned(s0, s1, root, child) && Source(s0.mem, s0, root, 4)
    requires AllPermitted(s1, TopLevel(s1.mem, child), run, Reach(s0.mem, root))
    ensures SameView(s0.mem, DoAll(s1, TopLevel(s1.mem, child), run).mem, root)
  {
    var c := TopLevel(s1.mem, child);
    ChildIsolated(s0, s1, root, child);
    SourceUnchanged(s0, s1, root, child);
    hide Foot, TopLevel, Isolated, Stock, Owned, IsCopy, Need, AllPermitted, DoAll, SameView, Reach;
    RunIsolated(s1, c, run, Reach(s0.mem, root));
    SourceBytes(s0, s1, root, child);
    SameReachSameView(s0.mem, DoAll(s1, c, run).mem, root);
  }

  lemma SourceBytes(s0: Phys, s1: Phys, root: Pfn, child: Pfn)
    requires Cloned(s0, s1, root, child) && Source(s0.mem, s0, root, 4)
    ensures forall q: Pfn :: q in Reach(s0.mem, root) ==> s1.mem[q] == s0.mem[q]
  {
    hide Foot, TopLevel, IsTree, IsCopy, Need;
  }

  /** And no run through the source changes what the child translates or what its frames hold. */
  lemma SourceRunKeepsChild(s0: Phys, s1: Phys, root: Pfn, child: Pfn, run: seq<Access>)
    requires Cloned(s0, s1, root, child) && Isolated(s0, root, {})
    requires AllPermitted(s1, root, run, Reach(s1.mem, TopLevel(s1.mem, child)))
    ensures SameView(s1.mem, DoAll(s1, root, run).mem, TopLevel(s1.mem, child))
  {
    var c := TopLevel(s1.mem, child);
    IsolatedIsSource(s0, root, {});
    SourceIsolated(s0, s1, root, child);
    hide Foot, TopLevel, Isolated, Stock, Owned, IsCopy, Need, AllPermitted, DoAll, SameView, Reach;
    RunIsolated(s1, root, run, Reach(s1.mem, c));
    SameReachSameView(s1.mem, DoAll(s1, root, run).mem, c);
  }
}
