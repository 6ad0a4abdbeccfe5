/** Runs of map and unmap over several pagemaps: tables refine partial maps, and no table page is lost or shared. */
module VmmRun {
  import opened Pte
  import opened PageTree
  import opened PhysMem
  import opened VmmSpec
  import opened VmmMap

  // A pagemap, abstractly: pages, named by the path to them, to leaf entries.
  type PageMap = map<Path, bv64>

  datatype Op =
    | Map(root: Pfn, va: bv64, pa: bv64, flags: bv64)
    | Unmap(root: Pfn, va: bv64)

  ghost function Exec(s: Phys, op: Op): (Phys, bool) {
    match op
    case Map(root, va, pa, flags) => Mapped(s, root, va, pa, flags)
    case Unmap(root, va) => Unmapped(s, root, va)
  }

  /** The intended effect of an operation that returned ok. */
  ghost function Intended(a: PageMap, op: Op, ok: bool): PageMap {
    if !ok then a
    else match op
      case Map(_, va, pa, flags) => a[PathOf(va) := LeafEntry(pa, flags)]
      case Unmap(_, va) => a - {PathOf(va)}
  }

  ghost function Lookup(a: PageMap, va: bv64): bv64 {
    if PathOf(va) in a then a[PathOf(va)] else 0
  }

  /** The tables under root say exactly what a says. */
  ghost predicate Refines(m: Mem, root: Pfn, a: PageMap) {
    forall va: bv64 :: Walk(m, root, 4, PathOf(va)) == Lookup(a, va)
  }

  /** All leaf entries are present. */
  ghost predicate LeavesPresent(a: PageMap) {
    forall v :: v in a ==> Present(a[v])
  }

  ghost function Tables(m: Mem, root: Pfn): set<Pfn> {
    Foot(m, root, 4, false)
  }

  /** Memory and its pagemaps: every pagemap is a tree of its own allocated tables and refines its map. */
  ghost predicate Consistent(s: Phys, spaces: map<Pfn, PageMap>) {
    && Sane(s)
    && (forall r :: r in spaces ==> Owned(s, r, 4, false) && Refines(s.mem, r, spaces[r]) && LeavesPresent(spaces[r]))
    && (forall r, q, f :: r in spaces && q in spaces && r != q && f in Tables(s.mem, r) ==> f !in Tables(s.mem, q))
  }

  /** Frames that are free or hold a table of some pagemap. */
  ghost function Held(s: Phys, roots: set<Pfn>): set<Pfn> {
    s.free + set r, f | r in roots && f in Tables(s.mem, r) :: f
  }

  lemma MapWalkPath(s: Phys, root: Pfn, va: bv64, pa: bv64, flags: bv64, q: Path)
    requires Owned(s, root, 4, false) && Sane(s) && q.Valid()
    ensures var (s1, ok) := Mapped(s, root, va, pa, flags);
      Walk(s1.mem, root, 4, q) == if ok && q == PathOf(va) then LeafEntry(pa, flags) else Walk(s.mem, root, 4, q)
  {
    hide PathOf, LeafEntry, TableFlagsFor, Owned, Plant, Present, Agree, TableFlags;
    TableFlagsGood(flags);
    LeafPresent(pa, flags);
    PlantWalk(s, root, 4, PathOf(va), TableFlagsFor(flags), LeafEntry(pa, flags), q);
    AgreeIsEqual(PathOf(va), q);
  }

  lemma MapWalk(s: Phys, root: Pfn, va: bv64, pa: bv64, flags: bv64, x: bv64)
    requires Owned(s, root, 4, false) && Sane(s)
    ensures var (s1, ok) := Mapped(s, root, va, pa, flags);
      Walk(s1.mem, root, 4, PathOf(x)) ==
        if ok && PathOf(x) == PathOf(va) then LeafEntry(pa, flags) else Walk(s.mem, root, 4, PathOf(x))
  {
    hide PathOf, Owned, Mapped, LeafEntry;
    MapWalkPath(s, root, va, pa, flags, PathOf(x));
  }

  lemma UnmapWalkPath(s: Phys, root: Pfn, va: bv64, q: Path)
    requires Owned(s, root, 4, false) && q.Valid()
    requires Walk(s.mem, root, 4, PathOf(va)) == 0 || Present(Walk(s.mem, root, 4, PathOf(va)))
    ensures var (s1, ok) := Unmapped(s, root, va);
      Walk(s1.mem, root, 4, q) == if ok && q == PathOf(va) then 0 else Walk(s.mem, root, 4, q)
  {
    hide PathOf, Owned, Prune, Present, Agree;
    AgreeIsEqual(PathOf(va), q);
    if Present(Walk(s.mem, root, 4, PathOf(va))) {
      PruneWalk(s, root, 4, PathOf(va), q);
    }
  }

  lemma UnmapWalk(s: Phys, root: Pfn, va: bv64, x: bv64)
    requires Owned(s, root, 4, false)
    requires Walk(s.mem, root, 4, PathOf(va)) == 0 || Present(Walk(s.mem, root, 4, PathOf(va)))
    ensures var (s1, ok) := Unmapped(s, root, va);
      Walk(s1.mem, root, 4, PathOf(x)) ==
        if ok && PathOf(x) == PathOf(va) then 0 else Walk(s.mem, root, 4, PathOf(x))
  {
    hide PathOf, Owned, Unmapped, Present;
    UnmapWalkPath(s, root, va, PathOf(x));
  }

  /** Frames other than the tables of root, before or after, keep their contents; tables are exchanged with free pages
      only. */
  ghost predicate Confined(s: Phys, s1: Phys, root: Pfn) {
    && Sane(s1) && s1.top == s.top && Owned(s1, root, 4, false)
    && s1.free + Tables(s1.mem, root) == s.free + Tables(s.mem, root)
    && forall f: Pfn :: f !in s.free && f !in Tables(s.mem, root) ==> s1.mem[f] == s.mem[f]
  }

  lemma ExecConfined(s: Phys, op: Op)
    requires Owned(s, op.root, 4, false) && Sane(s)
    ensures Confined(s, Exec(s, op).0, op.root)
  {
    hide PathOf, LeafEntry, TableFlagsFor, Plant, Prune, Present, TableFlags, IsTree, Foot;
    match op {
      case Map(root, va, pa, flags) =>
        TableFlagsGood(flags);
        LeafPresent(pa, flags);
        PlantGrows(s, root, 4, PathOf(va), TableFlagsFor(flags), LeafEntry(pa, flags));
      case Unmap(root, va) =>
        if Present(Walk(s.mem, root, 4, PathOf(va))) {
          PruneShrinks(s, root, 4, PathOf(va));
        }
    }
  }

  // A pagemap none of whose tables is touched stays as it is.
  lemma Untouched(s: Phys, s1: Phys, root: Pfn, r: Pfn, a: PageMap)
    requires Confined(s, s1, root) && Owned(s, r, 4, false) && Refines(s.mem, r, a)
    requires forall f :: f in Tables(s.mem, root) ==> f !in Tables(s.mem, r)
    ensures Owned(s1, r, 4, false) && Refines(s1.mem, r, a)
    ensures Tables(s1.mem, r) == Tables(s.mem, r)
    ensures forall f :: f in Tables(s1.mem, r) ==> f !in Tables(s1.mem, root)
  {
    hide PathOf, Walk, IsTree, Foot;
    FootFrame(s.mem, s1.mem, r, 4, false);
    forall va: bv64 ensures Walk(s1.mem, r, 4, PathOf(va)) == Lookup(a, va) {
      WalkFrame(s.mem, s1.mem, r, 4, PathOf(va));
    }
  }

  // The pagemap operated on changes as intended.
  lemma Touched(s: Phys, op: Op, a: PageMap)
    requires Sane(s) && Owned(s, op.root, 4, false) && Refines(s.mem, op.root, a) && LeavesPresent(a)
    ensures var (s1, ok) := Exec(s, op);
      Refines(s1.mem, op.root, Intended(a, op, ok)) && LeavesPresent(Intended(a, op, ok))
  {
    hide PathOf, LeafEntry, Mapped, Unmapped, Owned, Present, Walk;
    var (s1, ok) := Exec(s, op);
    var b := Intended(a, op, ok);
    match op {
      case Map(root, va, pa, flags) =>
        LeafPresent(pa, flags);
        forall x: bv64 ensures Walk(s1.mem, root, 4, PathOf(x)) == Lookup(b, x) {
          assert Walk(s.mem, root, 4, PathOf(x)) == Lookup(a, x);
          MapWalk(s, root, va, pa, flags, x);
        }
      case Unmap(root, va) =>
        assert Walk(s.mem, root, 4, PathOf(va)) == Lookup(a, va);
        forall x: bv64 ensures Walk(s1.mem, root, 4, PathOf(x)) == Lookup(b, x) {
          assert Walk(s.mem, root, 4, PathOf(x)) == Lookup(a, x);
          UnmapWalk(s, root, va, x);
        }
        forall v | v in b ensures Present(b[v]) {
          assert v in a;
        }
    }
  }

  /** One operation on one pagemap keeps all pagemaps consistent, changes that one as intended, and loses no page. */
  lemma StepConsistent(s: Phys, spaces: map<Pfn, PageMap>, op: Op)
    requires Consistent(s, spaces) && op.root in spaces
    ensures var (s1, ok) := Exec(s, op);
      && Consistent(s1, spaces[op.root := Intended(spaces[op.root], op, ok)])
      && Held(s1, spaces.Keys) == Held(s, spaces.Keys)
  {
    hide Exec, Intended, Refines, LeavesPresent, Owned, Tables;
    var (s1, ok) := Exec(s, op);
    var root := op.root;
    ExecConfined(s, op);
    Touched(s, op, spaces[root]);
    forall r | r in spaces && r != root
      ensures Owned(s1, r, 4, false) && Refines(s1.mem, r, spaces[r])
      ensures Tables(s1.mem, r) == Tables(s.mem, r)
      ensures forall f :: f in Tables(s1.mem, r) ==> f !in Tables(s1.mem, root)
    {
      Untouched(s, s1, root, r, spaces[r]);
    }
    HeldSame(s, s1, spaces.Keys, root);
  }

  lemma HeldSame(s: Phys, s1: Phys, roots: set<Pfn>, root: Pfn)
    requires root in roots
    requires s1.free + Tables(s1.mem, root) == s.free + Tables(s.mem, root)
    requires forall r :: r in roots && r != root ==> Tables(s1.mem, r) == Tables(s.mem, r)
    ensures Held(s1, roots) == Held(s, roots)
  {
    hide Tables;
    forall f | f in Held(s, roots) ensures f in Held(s1, roots) {
      HeldOne(s, s1, roots, root, f);
    }
    forall f | f in Held(s1, roots) ensures f in Held(s, roots) {
      HeldOne(s1, s, roots, root, f);
    }
  }

  lemma HeldOne(s: Phys, s1: Phys, roots: set<Pfn>, root: Pfn, f: Pfn)
    requires root in roots && f in Held(s, roots)
    requires s1.free + Tables(s1.mem, root) == s.free + Tables(s.mem, root)
    requires forall r :: r in roots && r != root ==> Tables(s1.mem, r) == Tables(s.mem, r)
    ensures f in Held(s1, roots)
  {
    hide Tables;
    if f in s.free {
      assert f in s1.free + Tables(s1.mem, root);
    } else {
      var r :| r in roots && f in Tables(s.mem, r);
      if r == root {
        assert f in s1.free + Tables(s1.mem, root);
      }
    }
  }

  ghost function Run(s: Phys, ops: seq<Op>): Phys
    decreases |ops|
  {
    if ops == [] then s else Run(Exec(s, ops[0]).0, ops[1..])
  }

  ghost function IntendedRun(s: Phys, spaces: map<Pfn, PageMap>, ops: seq<Op>): map<Pfn, PageMap>
    requires forall op :: op in ops ==> op.root in spaces
    decreases |ops|
  {
    if ops == [] then spaces
    else
      var op := ops[0];
      var (s1, ok) := Exec(s, op);
      IntendedRun(s1, spaces[op.root := Intended(spaces[op.root], op, ok)], ops[1..])
  }

  /** After any run over any pagemaps every translation is the intended one, no two slots share a table,
      every table is marked used, and the tables and free pages together are the frames they were before. */
  lemma {:induction false} RunConsistent(s: Phys, spaces: map<Pfn, PageMap>, ops: seq<Op>)
    requires Consistent(s, spaces) && forall op :: op in ops ==> op.root in spaces
    ensures Consistent(Run(s, ops), IntendedRun(s, spaces, ops))
    ensures IntendedRun(s, spaces, ops).Keys == spaces.Keys
    ensures Held(Run(s, ops), spaces.Keys) == Held(s, spaces.Keys)
    decreases |ops|
  {
    hide Exec, Intended, Consistent, Held;
    if ops != [] {
      var op := ops[0];
      var (s1, ok) := Exec(s, op);
      var spaces1 := spaces[op.root := Intended(spaces[op.root], op, ok)];
      assert spaces1.Keys == spaces.Keys;
      StepConsistent(s, spaces, op);
      RunConsistent(s1, spaces1, ops[1..]);
    }
  }

  /** Every map in the run succeeded. */
  ghost predicate NoFailure(s: Phys, ops: seq<Op>)
    decreases |ops|
  {
    ops == [] || ((ops[0].Map? ==> Exec(s, ops[0]).1) && NoFailure(Exec(s, ops[0]).0, ops[1..]))
  }

  ghost predicate Trim(s: Phys, roots: set<Pfn>) {
    forall r :: r in roots ==> NoEmpty(s.mem, r, 4)
  }

  lemma StepTrim(s: Phys, spaces: map<Pfn, PageMap>, op: Op)
    requires Consistent(s, spaces) && op.root in spaces && Trim(s, spaces.Keys)
    requires op.Map? ==> Exec(s, op).1
    ensures Trim(Exec(s, op).0, spaces.Keys)
  {
    var s1 := Exec(s, op).0;
    ExecConfined(s, op);
    ExecNoEmpty(s, op);
    hide Exec, Owned, Refines, LeavesPresent, NoEmpty, PathOf;
    forall r | r in spaces && r != op.root ensures NoEmpty(s1.mem, r, 4) {
      OtherNoEmpty(s, s1, op.root, r);
    }
  }

  lemma OtherNoEmpty(s: Phys, s1: Phys, root: Pfn, r: Pfn)
    requires Confined(s, s1, root) && Owned(s, r, 4, false) && NoEmpty(s.mem, r, 4)
    requires forall f :: f in Tables(s.mem, root) ==> f !in Tables(s.mem, r)
    ensures NoEmpty(s1.mem, r, 4)
  {
    hide IsTree, Foot, NoEmpty;
    NoEmptyFrame(s.mem, s1.mem, r, 4);
  }

  lemma ExecNoEmpty(s: Phys, op: Op)
    requires Sane(s) && Owned(s, op.root, 4, false) && NoEmpty(s.mem, op.root, 4)
    requires op.Map? ==> Exec(s, op).1
    ensures NoEmpty(Exec(s, op).0.mem, op.root, 4)
  {
    hide PathOf, LeafEntry, TableFlagsFor, Plant, Prune, Present, TableFlags, Owned, NoEmpty, Walk;
    match op {
      case Map(root, va, pa, flags) =>
        TableFlagsGood(flags);
        LeafPresent(pa, flags);
        PlantNoEmpty(s, root, 4, PathOf(va), TableFlagsFor(flags), LeafEntry(pa, flags));
      case Unmap(root, va) =>
        if Present(Walk(s.mem, root, 4, PathOf(va))) {
          PruneNoEmpty(s, root, 4, PathOf(va));
        }
    }
  }

  /** While no map fails, unmapping reclaims every table that became empty. */
  lemma {:induction false} RunTrim(s: Phys, spaces: map<Pfn, PageMap>, ops: seq<Op>)
    requires Consistent(s, spaces) && Trim(s, spaces.Keys) && forall op :: op in ops ==> op.root in spaces
    requires NoFailure(s, ops)
    ensures Trim(Run(s, ops), spaces.Keys)
    decreases |ops|
  {
    hide Exec, Intended, Consistent, Trim;
    if ops != [] {
      var op := ops[0];
      var (s1, ok) := Exec(s, op);
      var spaces1 := spaces[op.root := Intended(spaces[op.root], op, ok)];
      assert spaces1.Keys == spaces.Keys;
      StepConsistent(s, spaces, op);
      StepTrim(s, spaces, op);
      RunTrim(s1, spaces1, ops[1..]);
    }
  }

  lemma EmptyRefines(m: Mem, root: Pfn)
    requires m[root] == ZeroPage()
    ensures Refines(m, root, map[]) && NoEmpty(m, root, 4)
  {
    hide PathOf, Frame, Walk;
    ZeroAbsent();
    forall va: bv64 ensures Walk(m, root, 4, PathOf(va)) == Lookup(map[], va) {
      ZeroWalk(m, root, 4, PathOf(va));
    }
  }

  /** A pagemap whose root is a zeroed allocated page is consistent with the empty map. */
  lemma EmptySpace(s: Phys, root: Pfn)
    requires Sane(s) && s.mem[root] == ZeroPage() && root !in s.free && 0 < root <= s.top
    ensures Consistent(s, map[root := map[]]) && Trim(s, {root})
  {
    hide Refines, NoEmpty, IsTree, Foot;
    EmptyRefines(s.mem, root);
    ZeroTree(s.mem, root, 4);
  }

  /** Translating after a run: the frame last mapped for the page plus the offset in it, or all ones if none is. */
  lemma RunTranslates(s: Phys, spaces: map<Pfn, PageMap>, ops: seq<Op>, root: Pfn, va: bv64)
    requires Consistent(s, spaces) && (forall op :: op in ops ==> op.root in spaces) && root in spaces
    ensures root in IntendedRun(s, spaces, ops)
    ensures var a := IntendedRun(s, spaces, ops)[root];
      Target(Walk(Run(s, ops).mem, root, 4, PathOf(va)), va) ==
        if PathOf(va) in a then (a[PathOf(va)] & ADDR_MASK) + (va & PAGE_MASK) else NOT_MAPPED
  {
    hide PathOf, Walk, Exec, Intended, Owned, Present;
    RunConsistent(s, spaces, ops);
    assert root in IntendedRun(s, spaces, ops).Keys;
    ZeroAbsent();
  }

  /** Mapping an unmapped page and unmapping it gives back exactly the tables it took, and restores memory. */
  lemma MapThenUnmap(s: Phys, root: Pfn, va: bv64, pa: bv64, flags: bv64)
    requires Sane(s) && Owned(s, root, 4, false) && NoEmpty(s.mem, root, 4)
    requires va & PAGE_MASK == 0 && Walk(s.mem, root, 4, PathOf(va)) == 0
    requires Mapped(s, root, va, pa, flags).1
    ensures Unmapped(Mapped(s, root, va, pa, flags).0, root, va).1
    ensures Restored(s, Unmapped(Mapped(s, root, va, pa, flags).0, root, va).0)
  {
    LeafPresent(pa, flags);
    TableFlagsGood(flags);
    MapWalk(s, root, va, pa, flags, va);
    hide PathOf, LeafEntry, TableFlagsFor, Plant, Prune, Present, TableFlags, Owned, NoEmpty, Walk, Restored;
    PlantPrune(s, root, 4, PathOf(va), TableFlagsFor(flags), LeafEntry(pa, flags));
  }
}
