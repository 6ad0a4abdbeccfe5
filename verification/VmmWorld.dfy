/** Runs of everything that takes and gives pages: maps and unmaps in any pagemap, clones and their release, and other
    clients of the allocator. */
module VmmWorld {
  import opened Machine

  import opened Pte
  import opened PageTree
  import opened PhysMem
  import opened VmmSpec
  import opened VmmMap
  import opened VmmRun
  import opened VmmCount
  import opened CloneSpec
  import opened VmmClone
  import opened CloneTheorems
  import opened VmmIsolation

  /** Memory, the live pagemaps and what they mean, and the pages that clients hold: data of processes and of the
      kernel, and the pagemap_t of each clone. */
  datatype World = World(phys: Phys, spaces: map<Pfn, PageMap>, held: set<Pfn>)

  datatype Event =
    | Access(op: Op)
    | Take
    | Give(page: Pfn)
    | Write(page: Pfn, word: nat, value: bv64)
    | Clone(root: Pfn, child: Pfn)
    | Release(child: Pfn)

  /** Clients' pages are in memory, and neither free nor tables. */
  ghost predicate HeldApart(w: World) {
    w.held !! Held(w.phys, w.spaces.Keys) && forall f :: f in w.held ==> 0 < f <= w.phys.top
  }

  /** Every live pagemap is a tree of its own allocated tables and refines its map, no table belongs to two, and
      clients' pages are neither free nor tables. */
  ghost predicate Good(w: World) {
    Consistent(w.phys, w.spaces) && HeldApart(w)
  }

  /** All pages: free, tables, or held. No page is ever lost. */
  ghost function Pages(w: World): set<Pfn> {
    Held(w.phys, w.spaces.Keys) + w.held
  }

  /** What the child of a clone means: the same pages, through its own leaf entries. */
  ghost function ChildMap(m: Mem, c: Pfn, a: PageMap): PageMap {
    map v: Path | v in a && v.Valid() && Present(Walk(m, c, 4, v)) :: Walk(m, c, 4, v)
  }

  ghost predicate Cloning(w: World, w1: World, root: Pfn, child: Pfn) {
    && root in w.spaces && Source(w.phys.mem, w.phys, root, 4)
    && if child == 0 then Restored(w.phys, w1.phys) && w1.spaces == w.spaces && w1.held == w.held
       else
         && Cloned(w.phys, w1.phys, root, child)
         && var c := TopLevel(w1.phys.mem, child);
         && w1.spaces == w.spaces[c := ChildMap(w1.phys.mem, c, w.spaces[root])]
         && w1.held == w.held + {child} + (Foot(w1.phys.mem, c, 4, true) - Tables(w1.phys.mem, c))
  }

  ghost predicate Releasing(w: World, w1: World, child: Pfn) {
    var c := TopLevel(w.phys.mem, child);
    var leaves := Foot(w.phys.mem, c, 4, true) - Tables(w.phys.mem, c);
    && c in w.spaces && Owned(w.phys, c, 4, true) && leaves <= w.held
    && Discarded(w.phys, w1.phys, c)
    && w1.spaces == w.spaces - {c} && w1.held == w.held - leaves
  }

  /** One event. Clients give back and write only pages they hold. */
  ghost predicate Step(w: World, e: Event, w1: World) {
    match e
    case Access(op) =>
      && op.root in w.spaces
      && var (s1, ok) := Exec(w.phys, op);
      w1 == World(s1, w.spaces[op.root := Intended(w.spaces[op.root], op, ok)], w.held)
    case Take =>
      var (s1, f) := Allocated(w.phys);
      w1 == World(s1, w.spaces, if f == 0 then w.held else w.held + {f})
    case Give(f) => f in w.held && w1 == World(Released(w.phys, f * PAGE_SIZE), w.spaces, w.held - {f})
    case Write(f, i, v) =>
      f in w.held && i < ENTRIES && w1 == World(w.phys.(mem := PhysMem.Write(w.phys.mem, f, i, v)), w.spaces, w.held)
    case Clone(root, child) => Cloning(w, w1, root, child)
    case Release(child) => Releasing(w, w1, child)
  }

  // Pagemap r is as it was.
  ghost predicate Kept(s: Phys, s1: Phys, r: Pfn, a: PageMap) {
    Owned(s1, r, 4, false) && Refines(s1.mem, r, a) && Tables(s1.mem, r) == Tables(s.mem, r)
  }

  // A pagemap whose tables keep their contents and stay in use is as it was.
  lemma KeepsSpace(s: Phys, s1: Phys, r: Pfn, a: PageMap)
    requires Owned(s, r, 4, false) && Refines(s.mem, r, a) && s1.top == s.top
    requires forall f :: f in Tables(s.mem, r) ==> s1.mem[f] == s.mem[f] && f !in s1.free
    ensures Kept(s, s1, r, a)
  {
    hide PathOf, Walk, IsTree, Foot;
    FootFrame(s.mem, s1.mem, r, 4, false);
    forall va: bv64 ensures Walk(s1.mem, r, 4, PathOf(va)) == Lookup(a, va) {
      WalkFrame(s.mem, s1.mem, r, 4, PathOf(va));
    }
  }

  lemma SpaceAt(s: Phys, spaces: map<Pfn, PageMap>, r: Pfn)
    requires Consistent(s, spaces) && r in spaces
    ensures Owned(s, r, 4, false) && Refines(s.mem, r, spaces[r]) && LeavesPresent(spaces[r]) && Sane(s)
  {
    hide Owned, Refines, LeavesPresent, Sane, Tables;
  }

  // All pagemaps are as they were.
  lemma KeepsSpaces(s: Phys, s1: Phys, spaces: map<Pfn, PageMap>)
    requires Consistent(s, spaces) && Sane(s1) && s1.top == s.top
    requires forall r, f :: r in spaces && f in Tables(s.mem, r) ==> s1.mem[f] == s.mem[f] && f !in s1.free
    ensures Consistent(s1, spaces) && forall r :: r in spaces ==> Tables(s1.mem, r) == Tables(s.mem, r)
  {
    hide Owned, Refines, LeavesPresent, Tables, Sane;
    forall r | r in spaces ensures Kept(s, s1, r, spaces[r]) {
      SpaceAt(s, spaces, r);
      KeepsSpace(s, s1, r, spaces[r]);
    }
  }

  lemma TableUsed(s: Phys, spaces: map<Pfn, PageMap>, r: Pfn, f: Pfn)
    requires Consistent(s, spaces) && r in spaces && f in Tables(s.mem, r)
    ensures f !in s.free && 0 < f <= s.top
  {
    SpaceAt(s, spaces, r);
    hide IsTree, Foot, Refines;
  }

  // Changes that keep all tables.
  ghost predicate SameTables(s: Phys, s1: Phys, roots: set<Pfn>) {
    forall r :: r in roots ==> Tables(s1.mem, r) == Tables(s.mem, r)
  }

  ghost function TablesOf(s: Phys, roots: set<Pfn>): set<Pfn> {
    set r, f | r in roots && f in Tables(s.mem, r) :: f
  }

  lemma TablesOfSame(s: Phys, s1: Phys, roots: set<Pfn>)
    requires SameTables(s, s1, roots)
    ensures TablesOf(s1, roots) == TablesOf(s, roots)
    ensures Held(s1, roots) == s1.free + TablesOf(s, roots) && Held(s, roots) == s.free + TablesOf(s, roots)
  {
    hide Tables;
  }

  // One more pagemap.
  lemma TablesOfPlus(s: Phys, roots: set<Pfn>, c: Pfn)
    ensures TablesOf(s, roots + {c}) == TablesOf(s, roots) + Tables(s.mem, c)
    ensures Held(s, roots + {c}) == s.free + TablesOf(s, roots) + Tables(s.mem, c)
  {
    hide Tables;
    forall f | f in TablesOf(s, roots + {c}) ensures f in TablesOf(s, roots) + Tables(s.mem, c) {
      var r :| r in roots + {c} && f in Tables(s.mem, r);
      if r != c {
        assert r in roots && f in Tables(s.mem, r);
      }
    }
    forall f | f in TablesOf(s, roots) + Tables(s.mem, c) ensures f in TablesOf(s, roots + {c}) {
      if f in Tables(s.mem, c) {
        assert c in roots + {c};
      } else {
        var r :| r in roots && f in Tables(s.mem, r);
        assert r in roots + {c};
      }
    }
  }

  lemma TablesUsed(s: Phys, spaces: map<Pfn, PageMap>)
    requires Consistent(s, spaces)
    ensures TablesOf(s, spaces.Keys) !! s.free
    ensures forall r, f :: r in spaces && f in Tables(s.mem, r) ==> f in TablesOf(s, spaces.Keys)
  {
    hide Tables, Consistent;
    forall f | f in TablesOf(s, spaces.Keys) ensures f !in s.free {
      var r :| r in spaces.Keys && f in Tables(s.mem, r);
      TableUsed(s, spaces, r, f);
    }
    forall r, f | r in spaces && f in Tables(s.mem, r) ensures f in TablesOf(s, spaces.Keys) {
      assert r in spaces.Keys;
    }
  }

  /** What a step keeps: the invariant, and all pages. */
  ghost predicate Fine(w: World, w1: World) {
    Good(w1) && Pages(w1) == Pages(w) && w1.phys.top == w.phys.top
  }

  lemma AccessFine(w: World, op: Op, w1: World)
    requires Good(w) && Step(w, Access(op), w1)
    ensures Fine(w, w1)
  {
    hide Consistent, Held, Exec, Intended;
    StepConsistent(w.phys, w.spaces, op);
    AccessTop(w, op);
    assert w1.spaces.Keys == w.spaces.Keys;
  }

  lemma AccessTop(w: World, op: Op)
    requires Consistent(w.phys, w.spaces) && op.root in w.spaces
    ensures Exec(w.phys, op).0.top == w.phys.top
  {
    hide Exec, Owned, Refines, Tables;
    SpaceAt(w.phys, w.spaces, op.root);
    ExecConfined(w.phys, op);
  }

  // Memory changes outside the tables, and pages pass between the free ones and the clients.
  lemma Passes(w: World, w1: World)
    requires Good(w) && w1.spaces == w.spaces && Sane(w1.phys) && w1.phys.top == w.phys.top
    requires w1.phys.free + w1.held == w.phys.free + w.held && w1.phys.free !! w1.held
    requires forall f :: f in w1.phys.free ==> f !in TablesOf(w.phys, w.spaces.Keys)
    requires forall f :: f in TablesOf(w.phys, w.spaces.Keys) ==> w1.phys.mem[f] == w.phys.mem[f]
    ensures Fine(w, w1)
  {
    hide Tables, TablesOf, Held, Consistent;
    var roots := w.spaces.Keys;
    TablesUsed(w.phys, w.spaces);
    SaneAt(w);
    KeepsSpaces(w.phys, w1.phys, w.spaces);
    TablesOfSame(w.phys, w1.phys, roots);
  }

  lemma SaneAt(w: World)
    requires Consistent(w.phys, w.spaces)
    ensures Sane(w.phys)
  {
  }

  lemma TakeFine(w: World, w1: World)
    requires Good(w) && Step(w, Take, w1)
    ensures Fine(w, w1)
  {
    hide Tables, TablesOf, Consistent;
    SaneAt(w);
    TablesUsed(w.phys, w.spaces);
    TablesOfSame(w.phys, w.phys, w.spaces.Keys);
    hide Held;
    Passes(w, w1);
  }

  lemma GiveFine(w: World, f: Pfn, w1: World)
    requires Good(w) && Step(w, Give(f), w1)
    ensures Fine(w, w1)
  {
    hide Tables, TablesOf, Consistent;
    SaneAt(w);
    TablesUsed(w.phys, w.spaces);
    TablesOfSame(w.phys, w.phys, w.spaces.Keys);
    ReleasedFrame(w.phys, f);
    hide Held, Released;
    Passes(w, w1);
  }

  lemma WriteFine(w: World, f: Pfn, i: nat, v: bv64, w1: World)
    requires Good(w) && Step(w, Write(f, i, v), w1)
    ensures Fine(w, w1)
  {
    hide Tables, TablesOf, Consistent;
    SaneAt(w);
    TablesUsed(w.phys, w.spaces);
    TablesOfSame(w.phys, w.phys, w.spaces.Keys);
    hide Held;
    Passes(w, w1);
  }

  lemma FailedCloneFine(w: World, root: Pfn, w1: World)
    requires Good(w) && Cloning(w, w1, root, 0)
    ensures Fine(w, w1)
  {
    hide Tables, TablesOf, Consistent, Source;
    SaneAt(w);
    TablesUsed(w.phys, w.spaces);
    TablesOfSame(w.phys, w.phys, w.spaces.Keys);
    hide Held;
    Passes(w, w1);
  }

  /** A clone means what its source means, through its own frames. */
  lemma ChildRefines(s0: Phys, s1: Phys, root: Pfn, child: Pfn, a: PageMap)
    requires Cloned(s0, s1, root, child) && Refines(s0.mem, root, a)
    ensures var c := TopLevel(s1.mem, child);
      && Owned(s1, c, 4, false) && Refines(s1.mem, c, ChildMap(s1.mem, c, a)) && LeavesPresent(ChildMap(s1.mem, c, a))
  {
    var c := TopLevel(s1.mem, child);
    TreeForgetsLeaves(s1.mem, c, 4);
    TablesInFoot(s1.mem, c, 4);
    ZeroAbsent();
    hide PathOf, Walk, IsTree, Foot, IsCopy, Need, Present, Frame, Entry, TopLevel;
    forall va: bv64 ensures Walk(s1.mem, c, 4, PathOf(va)) == Lookup(ChildMap(s1.mem, c, a), va) {
      CopyWalk(s0.mem, root, s1.mem, c, 4, PathOf(va));
    }
  }

  // A pagemap of fresh tables joins the others.
  lemma Joins(s: Phys, spaces: map<Pfn, PageMap>, c: Pfn, a: PageMap)
    requires Consistent(s, spaces) && c !in spaces
    requires Owned(s, c, 4, false) && Refines(s.mem, c, a) && LeavesPresent(a)
    requires Tables(s.mem, c) !! TablesOf(s, spaces.Keys)
    ensures Consistent(s, spaces[c := a])
  {
    hide Owned, Refines, LeavesPresent, Tables, Sane;
    forall r, f | r in spaces && f in Tables(s.mem, r) ensures f !in Tables(s.mem, c) {
      assert r in spaces.Keys;
    }
  }

  // What cloning does to the sets of pages.
  lemma ClonedPages(s0: Phys, s1: Phys, root: Pfn, child: Pfn)
    requires Cloned(s0, s1, root, child)
    ensures var c := TopLevel(s1.mem, child);
      && Tables(s1.mem, c) <= Foot(s1.mem, c, 4, true) && child !in Foot(s1.mem, c, 4, true) && c in Tables(s1.mem, c)
      && s1.free <= s0.free && s0.free - s1.free == Foot(s1.mem, c, 4, true) + {child} && s1.top == s0.top
      && forall q: Pfn :: q !in s0.free ==> s1.mem[q] == s0.mem[q]
  {
    var c := TopLevel(s1.mem, child);
    TablesInFoot(s1.mem, c, 4);
    assert c in Foot(s1.mem, c, 4, false);
    hide Foot, IsTree, IsCopy, Need, TopLevel;
  }

  lemma RootInTables(m: Mem, r: Pfn)
    ensures r in Tables(m, r)
  {
  }

  lemma CloneFine(w: World, root: Pfn, child: Pfn, w1: World)
    requires Good(w) && Cloning(w, w1, root, child) && child != 0
    ensures Fine(w, w1)
  {
    hide Tables, TablesOf, Consistent, Source, Held, Cloned, TopLevel, Foot, ChildMap, Refines, LeavesPresent, Owned;
    var s0, s1, c := w.phys, w1.phys, TopLevel(w1.phys.mem, child);
    var roots := w.spaces.Keys;
    var a := ChildMap(s1.mem, c, w.spaces[root]);
    SaneAt(w);
    TablesUsed(s0, w.spaces);
    ClonedPages(s0, s1, root, child);
    KeepsSpaces(s0, s1, w.spaces);
    TablesOfSame(s0, s1, roots);
    SpaceAt(s0, w.spaces, root);
    ChildRefines(s0, s1, root, child, w.spaces[root]);
    if c in w.spaces {
      RootInTables(s0.mem, c);
    }
    Joins(s1, w.spaces, c, a);
    TablesOfPlus(s1, roots, c);
    assert w1.spaces.Keys == roots + {c};
    ClonedSets(s0.free, s1.free, TablesOf(s0, roots), Tables(s1.mem, c), Foot(s1.mem, c, 4, true), w.held, child);
  }

  lemma ClonedSets(f0: set<Pfn>, f1: set<Pfn>, tables: set<Pfn>, own: set<Pfn>, foot: set<Pfn>, held: set<Pfn>,
                   child: Pfn)
    requires f1 <= f0 && f0 - f1 == foot + {child} && own <= foot && child !in foot && tables !! f0
      && held !! f0 + tables
    ensures var held1 := held + {child} + (foot - own);
      held1 !! f1 + tables + own && f1 + tables + own + held1 == f0 + tables + held
  {
  }

  // The pagemaps other than c.
  lemma Leaves(s: Phys, spaces: map<Pfn, PageMap>, c: Pfn)
    requires Consistent(s, spaces) && c in spaces
    ensures Consistent(s, spaces - {c}) && Tables(s.mem, c) !! TablesOf(s, spaces.Keys - {c})
  {
    hide Owned, Refines, LeavesPresent, Tables, Sane;
  }

  lemma ReleasedSets(f0: set<Pfn>, tables: set<Pfn>, own: set<Pfn>, foot: set<Pfn>, held: set<Pfn>)
    requires own <= foot && foot - own <= held && own !! tables && held !! f0 + tables + own
    ensures var held1 := held - (foot - own);
      held1 !! f0 + foot + tables && f0 + foot + tables + held1 == f0 + tables + own + held
    ensures foot !! tables
  {
  }

  lemma CloneFrames(s: Phys, c: Pfn)
    requires Owned(s, c, 4, true)
    ensures Tables(s.mem, c) <= Foot(s.mem, c, 4, true)
    ensures forall f :: f in Foot(s.mem, c, 4, true) ==> 0 < f <= s.top
  {
    hide Foot, IsTree;
    TablesInFoot(s.mem, c, 4);
  }

  lemma ReleaseFine(w: World, child: Pfn, w1: World)
    requires Good(w) && Releasing(w, w1, child)
    ensures Fine(w, w1)
  {
    hide Tables, TablesOf, Consistent, Held, TopLevel, Foot, Owned;
    var s0, s1, c := w.phys, w1.phys, TopLevel(w.phys.mem, child);
    var rest, foot := w.spaces.Keys - {c}, Foot(s0.mem, c, 4, true);
    assert rest + {c} == w.spaces.Keys && w1.spaces.Keys == rest;
    SaneAt(w);
    CloneFrames(s0, c);
    Leaves(s0, w.spaces, c);
    TablesOfPlus(s0, rest, c);
    TablesUsed(s0, w1.spaces);
    ReleasedSets(s0.free, TablesOf(s0, rest), Tables(s0.mem, c), foot, w.held);
    KeepsSpaces(s0, s1, w1.spaces);
    TablesOfSame(s0, s1, rest);
  }

  /** Every event keeps every pagemap a tree of its own used tables that means what it should, keeps tables, free pages
      and clients' pages apart, and loses no page. */
  lemma StepFine(w: World, e: Event, w1: World)
    requires Good(w) && Step(w, e, w1)
    ensures Fine(w, w1)
  {
    hide Good, Fine, Cloning, Releasing;
    match e {
      case Access(op) => AccessFine(w, op, w1);
      case Take => TakeFine(w, w1);
      case Give(f) => GiveFine(w, f, w1);
      case Write(f, i, v) => WriteFine(w, f, i, v, w1);
      case Clone(root, child) =>
        if child == 0 {
          FailedCloneFine(w, root, w1);
        } else {
          CloneFine(w, root, child, w1);
        }
      case Release(child) => ReleaseFine(w, child, w1);
    }
  }

  /** A run: the worlds passed through, one event from each to the next. */
  ghost predicate IsRun(ws: seq<World>, es: seq<Event>) {
    |ws| == |es| + 1 && forall i :: 0 <= i < |es| ==> Step(ws[i], es[i], ws[i + 1])
  }

  /** In every reachable world the invariant holds and all pages are accounted for. */
  lemma {:induction false} EveryWorldFine(ws: seq<World>, es: seq<Event>, k: nat)
    requires IsRun(ws, es) && Good(ws[0]) && k <= |es|
    ensures Good(ws[k]) && Pages(ws[k]) == Pages(ws[0])
  {
    hide Good, Step, Pages;
    if k > 0 {
      EveryWorldFine(ws, es, k - 1);
      assert Step(ws[k - 1], es[k - 1], ws[k]);
      StepFine(ws[k - 1], es[k - 1], ws[k]);
    }
  }

  /** A world with one empty pagemap, as after boot has set up its root. */
  lemma FirstWorld(s: Phys, root: Pfn)
    requires Sane(s) && s.mem[root] == ZeroPage() && root !in s.free && 0 < root <= s.top
    ensures Good(World(s, map[root := map[]], {}))
  {
    hide Consistent;
    EmptySpace(s, root);
  }

  /** No table of any live pagemap is empty. */
  ghost predicate AllTrim(w: World) {
    Trim(w.phys, w.spaces.Keys)
  }

  /** A copy of a tree without empty tables has none. */
  lemma {:induction false} CopyNoEmpty(m: Mem, t: Pfn, n: Mem, c: Pfn, k: nat)
    requires 1 <= k <= 4 && IsCopy(m, t, n, c, k) && IsTree(m, t, k, false) && NoEmpty(m, t, k)
    ensures NoEmpty(n, c, k)
    decreases k
  {
    hide Present, Frame, Entry, IsCopy, IsTree;
    if k >= 2 {
      forall i: nat | i < ENTRIES && Present(n[c][i])
        ensures n[Frame(n[c][i])] != ZeroPage() && NoEmpty(n, Frame(n[c][i]), k - 1)
      {
        ZeroAbsent();
        CopyOfSlot(m, t, n, c, i, k);
        TreeParts(m, t, i, k, false);
        CopyNotZero(m, Frame(m[t][i]), n, Frame(n[c][i]), k - 1);
        CopyNoEmpty(m, Frame(m[t][i]), n, Frame(n[c][i]), k - 1);
      }
    }
  }

  lemma CopyNotZero(m: Mem, t: Pfn, n: Mem, c: Pfn, k: nat)
    requires k >= 1 && IsCopy(m, t, n, c, k) && IsTree(m, t, k, false) && m[t] != ZeroPage()
    ensures n[c] != ZeroPage()
  {
    hide Present, Frame, Entry, IsCopy, IsTree;
    var j: nat :| j < ENTRIES && m[t][j] != 0;
    TreeParts(m, t, j, k, false);
    CopyOfSlot(m, t, n, c, j, k);
    ZeroAbsent();
  }

  // Tables that keep their contents are as empty as they were.
  lemma StaysTrim(s: Phys, s1: Phys, spaces: map<Pfn, PageMap>)
    requires Trim(s, spaces.Keys)
    requires forall r, f :: r in spaces && f in Tables(s.mem, r) ==> s1.mem[f] == s.mem[f]
    ensures Trim(s1, spaces.Keys)
  {
    hide NoEmpty, Foot;
    forall r | r in spaces ensures NoEmpty(s1.mem, r, 4) {
      NoEmptyFrame(s.mem, s1.mem, r, 4);
    }
  }

  // What keeps the tables: every event but a map or unmap.
  lemma TablesKept(w: World, e: Event, w1: World)
    requires Good(w) && Step(w, e, w1) && !e.Access? && !e.Release?
    ensures forall r, f :: r in w.spaces && f in Tables(w.phys.mem, r) ==> w1.phys.mem[f] == w.phys.mem[f]
  {
    hide Tables, TablesOf, Consistent, Source, Cloned, Foot, TopLevel, ChildMap;
    TablesUsed(w.phys, w.spaces);
    TablesOfSame(w.phys, w.phys, w.spaces.Keys);
    hide Held;
    if e.Clone? && e.child != 0 {
      ClonedPages(w.phys, w1.phys, e.root, e.child);
    }
  }

  lemma ReleaseKeepsTables(w: World, child: Pfn, w1: World)
    requires Good(w) && Releasing(w, w1, child)
    ensures forall r, f :: r in w1.spaces && f in Tables(w.phys.mem, r) ==> w1.phys.mem[f] == w.phys.mem[f]
  {
    hide Tables, TablesOf, Consistent, Held, TopLevel, Foot, Owned;
    var s0, c := w.phys, TopLevel(w.phys.mem, child);
    var rest, foot := w.spaces.Keys - {c}, Foot(s0.mem, c, 4, true);
    assert rest + {c} == w.spaces.Keys && w1.spaces.Keys == rest;
    CloneFrames(s0, c);
    Leaves(s0, w.spaces, c);
    TablesOfPlus(s0, rest, c);
    TablesUsed(s0, w1.spaces);
    ReleasedSets(s0.free, TablesOf(s0, rest), Tables(s0.mem, c), foot, w.held);
  }

  lemma TrimPart(s: Phys, spaces: map<Pfn, PageMap>, c: Pfn)
    requires Trim(s, spaces.Keys)
    ensures Trim(s, (spaces - {c}).Keys)
  {
    hide NoEmpty;
  }

  lemma TrimPlus(s: Phys, spaces: map<Pfn, PageMap>, c: Pfn, a: PageMap)
    requires Trim(s, spaces.Keys) && NoEmpty(s.mem, c, 4)
    ensures Trim(s, spaces[c := a].Keys)
  {
    hide NoEmpty;
  }

  lemma ClonedTrim(w: World, root: Pfn, child: Pfn, w1: World)
    requires Good(w) && Cloning(w, w1, root, child) && child != 0 && AllTrim(w)
    ensures NoEmpty(w1.phys.mem, TopLevel(w1.phys.mem, child), 4)
  {
    SpaceAt(w.phys, w.spaces, root);
    assert NoEmpty(w.phys.mem, root, 4);
    hide IsTree, IsCopy, Foot, Refines, Consistent, NoEmpty, TopLevel, Need, Source;
    CopyNoEmpty(w.phys.mem, root, w1.phys.mem, TopLevel(w1.phys.mem, child), 4);
  }

  /** Every event but a map that fails leaves no empty table in any live pagemap, clones included. */
  lemma StepStaysTrim(w: World, e: Event, w1: World)
    requires Good(w) && AllTrim(w) && Step(w, e, w1)
    requires e.Access? && e.op.Map? ==> Exec(w.phys, e.op).1
    ensures AllTrim(w1)
  {
    hide Tables, Consistent, Held, Exec, Intended, Cloned, Source, NoEmpty, Trim, TopLevel, Foot;
    if e.Access? {
      StepTrim(w.phys, w.spaces, e.op);
      assert w1.spaces.Keys == w.spaces.Keys;
    } else if e.Release? {
      ReleaseKeepsTables(w, e.child, w1);
      TrimPart(w.phys, w.spaces, TopLevel(w.phys.mem, e.child));
      StaysTrim(w.phys, w1.phys, w1.spaces);
    } else {
      TablesKept(w, e, w1);
      StaysTrim(w.phys, w1.phys, w.spaces);
      if e.Clone? && e.child != 0 {
        ClonedTrim(w, e.root, e.child, w1);
        var c := TopLevel(w1.phys.mem, e.child);
        TrimPlus(w1.phys, w.spaces, c, ChildMap(w1.phys.mem, c, w.spaces[e.root]));
      }
    }
  }

  /** No map fails in the run. */
  ghost predicate NoMapFails(ws: seq<World>, es: seq<Event>)
    requires |ws| == |es| + 1
  {
    forall i :: 0 <= i < |es| && es[i].Access? && es[i].op.Map? ==> Exec(ws[i].phys, es[i].op).1
  }

  /** So it is in every reachable world, while no map fails. */
  lemma {:induction false} EveryWorldTrim(ws: seq<World>, es: seq<Event>, k: nat)
    requires IsRun(ws, es) && Good(ws[0]) && AllTrim(ws[0]) && NoMapFails(ws, es) && k <= |es|
    ensures Good(ws[k]) && AllTrim(ws[k])
  {
    hide Good, Step, AllTrim, Exec, Pages;
    if k > 0 {
      EveryWorldTrim(ws, es, k - 1);
      assert Step(ws[k - 1], es[k - 1], ws[k]);
      StepFine(ws[k - 1], es[k - 1], ws[k]);
      StepStaysTrim(ws[k - 1], es[k - 1], ws[k]);
    }
  }

  /** Then the table pages of every live pagemap are one more than the distinct prefixes of its mapped pages. */
  lemma EveryPagemapCounted(w: World, r: Pfn) returns (prefixes: set<seq<nat>>)
    requires Good(w) && AllTrim(w) && r in w.spaces
    ensures forall x :: x in prefixes <==> x != [] && MappedPrefix(w.phys.mem, r, 4, x)
    ensures |Tables(w.phys.mem, r)| == 1 + |prefixes|
  {
    SpaceAt(w.phys, w.spaces, r);
    assert NoEmpty(w.phys.mem, r, 4);
    hide IsTree, Foot, Refines, Consistent, NoEmpty, MappedPrefix, Held;
    prefixes := TableCount(w.phys.mem, r);
  }
}
