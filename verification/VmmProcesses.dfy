/** Any number of processes, each with a pagemap, and a kernel with pages of its own: over runs that map, store, clone
    and release, no process sees anything of what the others or the kernel do. */
module VmmProcesses {
  import opened Machine

  import opened Words
  import opened Mmu
  import opened Pte
  import opened PageTree
  import opened PhysMem
  import opened VmmSpec
  import opened VmmMap
  import opened VmmRun
  import opened VmmNumbers
  import opened CloneSpec
  import opened VmmClone
  import opened VmmIsolation

  /** Memory, the pagemaps of the live processes, and the pages the kernel holds, each clone's pagemap_t among them. */
  datatype System = System(phys: Phys, roots: set<Pfn>, kernel: set<Pfn>)

  datatype Event =
    | Run(root: Pfn, access: Access)
    | Take
    | Give(page: Pfn)
    | Poke(page: Pfn, word: nat, value: bv64)
    | Clone(root: Pfn, child: Pfn)
    | Release(child: Pfn)

  /** The frames that process x must leave alone: the kernel's, and what the other processes reach. */
  ghost function Rest(w: System, x: Pfn): set<Pfn> {
    w.kernel + set y, f | y in w.roots && y != x && f in Reach(w.phys.mem, y) :: f
  }

  /** The kernel's pages are in memory and not free. */
  ghost predicate KernelUsed(w: System) {
    Sane(w.phys) && w.kernel !! w.phys.free && forall f :: f in w.kernel ==> 0 < f <= w.phys.top
  }

  /** Process x has a tree of its own tables, maps none of them and no free page, and reaches no page of the kernel. */
  ghost predicate Own(w: System, x: Pfn) {
    Isolated(w.phys, x, {}) && Reach(w.phys.mem, x) !! w.kernel
  }

  /** So it is with every process, and no frame is reached by two. */
  ghost predicate Secure(w: System) {
    && KernelUsed(w) && (forall x :: x in w.roots ==> Own(w, x))
    && forall x, y :: x in w.roots && y in w.roots && x != y ==> Reach(w.phys.mem, x) !! Reach(w.phys.mem, y)
  }

  ghost predicate Cloning(w: System, w1: System, root: Pfn, child: Pfn) {
    && root in w.roots
    && if child == 0 then Restored(w.phys, w1.phys) && w1.roots == w.roots && w1.kernel == w.kernel
       else
         && Cloned(w.phys, w1.phys, root, child)
         && w1.roots == w.roots + {TopLevel(w1.phys.mem, child)} && w1.kernel == w.kernel + {child}
  }

  ghost predicate Releasing(w: System, w1: System, child: Pfn) {
    var c := TopLevel(w.phys.mem, child);
    && c in w.roots && Owned(w.phys, c, 4, true) && Discarded(w.phys, w1.phys, c)
    && w1.roots == w.roots - {c} && w1.kernel == w.kernel
  }

  /** One event. A process maps by address only what is neither free, nor its own table, nor anyone else's, at that
      time; the kernel gives back and writes only its own pages. */
  ghost predicate Step(w: System, e: Event, w1: System) {
    match e
    case Run(x, a) => x in w.roots && Permitted(w.phys, x, a, Rest(w, x)) && w1 == w.(phys := Do(w.phys, x, a))
    case Take =>
      var (s1, f) := Allocated(w.phys);
      w1 == System(s1, w.roots, if f == 0 then w.kernel else w.kernel + {f})
    case Give(f) => f in w.kernel && w1 == System(Released(w.phys, f * PAGE_SIZE), w.roots, w.kernel - {f})
    case Poke(f, i, v) =>
      f in w.kernel && i < ENTRIES && w1 == w.(phys := w.phys.(mem := Write(w.phys.mem, f, i, v)))
    case Clone(root, child) => Cloning(w, w1, root, child)
    case Release(child) => Releasing(w, w1, child)
  }

  /** The invariant holds again, and every process that lives on and did not itself run sees what it saw. */
  ghost predicate Secured(w: System, w1: System, e: Event) {
    Secure(w1) && forall y :: y in w.roots && y in w1.roots && (e.Run? ==> y != e.root) ==>
      SameView(w.phys.mem, w1.phys.mem, y)
  }

  lemma OwnReach(w: System, x: Pfn)
    requires Secure(w) && x in w.roots
    ensures Own(w, x) && Reach(w.phys.mem, x) !! w.phys.free && Reach(w.phys.mem, x) !! Rest(w, x)
  {
    hide Reach, Isolated, KernelUsed;
    forall q | q in Reach(w.phys.mem, x) ensures q !in w.phys.free {
      ReachCases(w.phys, x, {}, q);
    }
  }

  lemma RestUsed(w: System, x: Pfn)
    requires Secure(w)
    ensures Rest(w, x) !! w.phys.free
  {
    hide Reach, Own;
    forall y, f | y in w.roots && f in Reach(w.phys.mem, y) ensures f !in w.phys.free {
      OwnReach(w, y);
    }
  }

  lemma StaysOwn(w: System, w1: System, y: Pfn)
    requires Secure(w) && y in w.roots && LeftAlone(w.phys, w1.phys, y)
    requires w1.kernel !! Reach(w.phys.mem, y)
    ensures Own(w1, y) && SameView(w.phys.mem, w1.phys.mem, y) && Reach(w1.phys.mem, y) == Reach(w.phys.mem, y)
  {
    hide Isolated, Reach, SameView, LeftAlone;
    StaysIsolated(w.phys, w1.phys, y, {}, {});
  }

  // No process is touched.
  lemma AllStay(w: System, w1: System, e: Event)
    requires Secure(w) && KernelUsed(w1) && w1.roots <= w.roots
    requires forall y :: y in w1.roots ==> LeftAlone(w.phys, w1.phys, y) && w1.kernel !! Reach(w.phys.mem, y)
    ensures Secured(w, w1, e)
  {
    hide Reach, SameView, Own, LeftAlone;
    forall y | y in w1.roots
      ensures Own(w1, y) && SameView(w.phys.mem, w1.phys.mem, y) && Reach(w1.phys.mem, y) == Reach(w.phys.mem, y)
    {
      StaysOwn(w, w1, y);
    }
  }

  /** A pagemap is isolated from whatever is neither free nor reached. */
  lemma IsolatedFrom(s: Phys, x: Pfn, b: set<Pfn>)
    requires Isolated(s, x, {}) && b !! s.free && b !! Reach(s.mem, x)
    ensures Isolated(s, x, b)
  {
    hide Reach, SameView;
    forall q | q in Reach(s.mem, x) ensures q !in s.free {
      ReachCases(s, x, {}, q);
    }
    StaysIsolated(s, s, x, {}, b);
  }

  lemma IsolatedLess(s: Phys, x: Pfn, b: set<Pfn>)
    requires Isolated(s, x, b)
    ensures Isolated(s, x, {}) && Reach(s.mem, x) !! b
  {
    forall q | q in Reach(s.mem, x) ensures q !in b {
      ReachCases(s, x, b, q);
    }
    hide Walk, Foot, Frame, Present, IsTree;
  }

  lemma RunActor(w: System, x: Pfn, a: Access, w1: System)
    requires Secure(w) && Step(w, Run(x, a), w1)
    ensures Spared(w.phys, w1.phys, x, Rest(w, x)) && Own(w1, x) && Reach(w1.phys.mem, x) !! Rest(w, x)
    ensures KernelUsed(w1) && w1.phys.free !! Rest(w, x)
  {
    hide Reach, Isolated, Permitted, Do, Secure;
    OwnReach(w, x);
    RestUsed(w, x);
    IsolatedFrom(w.phys, x, Rest(w, x));
    StepIsolated(w.phys, x, a, Rest(w, x));
    IsolatedLess(w1.phys, x, Rest(w, x));
    SparedUsed(w, w1, x);
  }

  lemma SparedUsed(w: System, w1: System, x: Pfn)
    requires Secure(w) && Spared(w.phys, w1.phys, x, Rest(w, x)) && w1.kernel == w.kernel
    ensures KernelUsed(w1) && w1.phys.free !! Rest(w, x)
  {
    hide Tables, Walk, Frame, Present, Own, Reach;
  }

  // The others are untouched.
  lemma RunOther(w: System, x: Pfn, w1: System, y: Pfn)
    requires Secure(w) && y in w.roots && y != x && w1.kernel == w.kernel && KernelUsed(w1)
    requires Spared(w.phys, w1.phys, x, Rest(w, x)) && w1.phys.free !! Rest(w, x)
    ensures Own(w1, y) && SameView(w.phys.mem, w1.phys.mem, y) && Reach(w1.phys.mem, y) == Reach(w.phys.mem, y)
    ensures Reach(w.phys.mem, y) <= Rest(w, x)
  {
    hide Reach, Isolated, SameView, Own, Stock;
    assert Reach(w.phys.mem, y) <= Rest(w, x);
    OwnReach(w, y);
    StaysOwn(w, w1, y);
  }

  lemma RunSecure(w: System, x: Pfn, a: Access, w1: System)
    requires Secure(w) && Step(w, Run(x, a), w1)
    ensures Secured(w, w1, Run(x, a))
  {
    hide Reach, Spared, Permitted, Do, SameView, Own, KernelUsed;
    RunActor(w, x, a, w1);
    forall y | y in w.roots && y != x
      ensures Own(w1, y) && SameView(w.phys.mem, w1.phys.mem, y) && Reach(w1.phys.mem, y) == Reach(w.phys.mem, y)
      ensures Reach(w.phys.mem, y) <= Rest(w, x)
    {
      RunOther(w, x, w1, y);
    }
    hide Rest;
  }

  lemma TakeSecure(w: System, w1: System)
    requires Secure(w) && Step(w, Take, w1)
    ensures Secured(w, w1, Take)
  {
    hide Reach, Isolated, SameView, Own, Secured;
    forall y | y in w.roots ensures Reach(w.phys.mem, y) !! w.phys.free && Reach(w.phys.mem, y) !! w.kernel {
      OwnReach(w, y);
    }
    AllStay(w, w1, Take);
  }

  lemma GiveSecure(w: System, f: Pfn, w1: System)
    requires Secure(w) && Step(w, Give(f), w1)
    ensures Secured(w, w1, Give(f))
  {
    hide Reach, Isolated, SameView, Own, Secured;
    forall y | y in w.roots ensures Reach(w.phys.mem, y) !! w.phys.free && Reach(w.phys.mem, y) !! w.kernel {
      OwnReach(w, y);
    }
    ReleasedFrame(w.phys, f);
    AllStay(w, w1, Give(f));
  }

  lemma PokeSecure(w: System, f: Pfn, i: nat, v: bv64, w1: System)
    requires Secure(w) && Step(w, Poke(f, i, v), w1)
    ensures Secured(w, w1, Poke(f, i, v))
  {
    hide Reach, Isolated, SameView, Own, Secured;
    forall y | y in w.roots ensures Reach(w.phys.mem, y) !! w.phys.free && Reach(w.phys.mem, y) !! w.kernel {
      OwnReach(w, y);
    }
    AllStay(w, w1, Poke(f, i, v));
  }

  lemma FailedCloneSecure(w: System, root: Pfn, w1: System)
    requires Secure(w) && Cloning(w, w1, root, 0)
    ensures Secured(w, w1, Clone(root, 0))
  {
    hide Reach, Isolated, SameView, Own, Secured;
    forall y | y in w.roots ensures Reach(w.phys.mem, y) !! w.phys.free && Reach(w.phys.mem, y) !! w.kernel {
      OwnReach(w, y);
    }
    AllStay(w, w1, Clone(root, 0));
  }

  // The child is isolated, and made of pages that were free.
  lemma ChildOwn(w: System, root: Pfn, child: Pfn, w1: System)
    requires Secure(w) && Cloning(w, w1, root, child) && child != 0
    ensures var c := TopLevel(w1.phys.mem, child);
      && Isolated(w1.phys, c, {}) && Reach(w1.phys.mem, c) <= w.phys.free - w1.phys.free
      && child in w.phys.free - w1.phys.free && child !in Reach(w1.phys.mem, c)
      && w1.phys.free <= w.phys.free && w1.phys.top == w.phys.top
      && c in Reach(w1.phys.mem, c)
      && forall q: Pfn :: q !in w.phys.free ==> w1.phys.mem[q] == w.phys.mem[q]
  {
    hide Isolated, Source, Foot, TopLevel, Need, IsCopy, IsTree;
    var c := TopLevel(w1.phys.mem, child);
    OwnReach(w, root);
    IsolatedIsSource(w.phys, root, {});
    ChildIsolated(w.phys, w1.phys, root, child);
    IsolatedLess(w1.phys, c, Reach(w.phys.mem, root));
    HeadReached(w1.phys.mem, c);
  }

  lemma HeadReached(m: Mem, c: Pfn)
    ensures c in Reach(m, c)
  {
  }

  lemma CloneSecure(w: System, root: Pfn, child: Pfn, w1: System)
    requires Secure(w) && Cloning(w, w1, root, child) && child != 0
    ensures Secured(w, w1, Clone(root, child))
  {
    hide Reach, Isolated, SameView, Cloned, TopLevel;
    ChildOwn(w, root, child, w1);
    var c := TopLevel(w1.phys.mem, child);
    forall y | y in w.roots
      ensures Own(w1, y) && SameView(w.phys.mem, w1.phys.mem, y) && Reach(w1.phys.mem, y) == Reach(w.phys.mem, y)
      ensures Reach(w.phys.mem, y) !! w.phys.free
    {
      OwnReach(w, y);
      StaysOwn(w, w1, y);
    }
  }

  lemma ReleaseSecure(w: System, child: Pfn, w1: System)
    requires Secure(w) && Releasing(w, w1, child)
    ensures Secured(w, w1, Release(child))
  {
    hide Foot, IsTree, Isolated, SameView, TopLevel, Secured;
    var c := TopLevel(w.phys.mem, child);
    assert Foot(w.phys.mem, c, 4, true) == Reach(w.phys.mem, c);
    OwnReach(w, c);
    forall y | y in w1.roots
      ensures Reach(w.phys.mem, y) !! w1.phys.free && Reach(w.phys.mem, y) !! w.kernel
    {
      OwnReach(w, y);
    }
    hide Reach, Own;
    AllStay(w, w1, Release(child));
  }

  /** Every event, clones and releases included, keeps all processes and the kernel apart, and changes nothing that a
      process other than the one running can see. */
  lemma StepSecure(w: System, e: Event, w1: System)
    requires Secure(w) && Step(w, e, w1)
    ensures Secured(w, w1, e)
  {
    hide Secure, Secured, Cloning, Releasing;
    match e {
      case Run(x, a) => RunSecure(w, x, a, w1);
      case Take => TakeSecure(w, w1);
      case Give(f) => GiveSecure(w, f, w1);
      case Poke(f, i, v) => PokeSecure(w, f, i, v, w1);
      case Clone(root, child) =>
        if child == 0 {
          FailedCloneSecure(w, root, w1);
        } else {
          CloneSecure(w, root, child, w1);
        }
      case Release(child) => ReleaseSecure(w, child, w1);
    }
  }

  /** The first use of a page: what a process finds where it has had a page allocated and mapped is all zero, so nothing
      of what the page held before, for another process or the kernel, can be read. */
  lemma FirstUse(w: System, x: Pfn, va: bv64, flags: bv64, w1: System)
    requires Secure(w) && Step(w, Run(x, Fresh(va, flags)), w1)
    ensures var r := LookUp(w1.phys.mem, x, Number(va));
      r.Leaf? && PointsTo(r.word) in w.phys.free ==> forall i: nat :: i < 512 ==> w1.phys.mem[PointsTo(r.word)][i] == 0
  {
    hide Isolated, Reach, LookUp, Walk, PathOf, PathTo, Number, Present, IsPresent, PointsTo, Frame, Missing, Do;
    OwnReach(w, x);
    FreshIsZero(w.phys, x, va, flags, {});
    PathIndices(va);
    OnlyPath(PathOf(va), Number(va));
    LookUpIsWalk(w1.phys.mem, x, Number(va));
    PresentNumber(Walk(w1.phys.mem, x, 4, PathOf(va)));
    FrameNumber(Walk(w1.phys.mem, x, 4, PathOf(va)));
  }

  /** A run: the states passed through, one event from each to the next. */
  ghost predicate IsRun(ws: seq<System>, es: seq<Event>) {
    |ws| == |es| + 1 && forall i :: 0 <= i < |es| ==> Step(ws[i], es[i], ws[i + 1])
  }

  /** In every reachable state all processes are apart. */
  lemma {:induction false} EveryStateSecure(ws: seq<System>, es: seq<Event>, k: nat)
    requires IsRun(ws, es) && Secure(ws[0]) && k <= |es|
    ensures Secure(ws[k])
  {
    hide Secure, Step, SameView;
    if k > 0 {
      EveryStateSecure(ws, es, k - 1);
      assert Step(ws[k - 1], es[k - 1], ws[k]);
      StepSecure(ws[k - 1], es[k - 1], ws[k]);
    }
  }

  /** Process y lives from state i to state j and makes no step in between. */
  ghost predicate Idle(ws: seq<System>, es: seq<Event>, i: nat, j: nat, y: Pfn)
    requires |ws| == |es| + 1
  {
    && i <= j <= |es| && (forall k :: i <= k <= j ==> y in ws[k].roots)
    && forall k :: i <= k < j && es[k].Run? ==> es[k].root != y
  }

  lemma ViewTrans(m: Mem, n: Mem, o: Mem, y: Pfn)
    requires SameView(m, n, y) && SameView(n, o, y)
    ensures SameView(m, o, y)
  {
    hide Walk, Frame, Present;
  }

  /** Between two steps of its own, a process finds its translations and the contents of its pages as it left them,
      whatever the others, the kernel, clones of it and releases did meanwhile. */
  lemma {:induction false} FoundAsLeft(ws: seq<System>, es: seq<Event>, i: nat, j: nat, y: Pfn)
    requires IsRun(ws, es) && Secure(ws[0]) && Idle(ws, es, i, j, y)
    ensures SameView(ws[i].phys.mem, ws[j].phys.mem, y)
    decreases j
  {
    if i == j {
      hide Step, Secure, Walk, Frame, Present;
    } else {
      hide Secure, Step, SameView;
      FoundAsLeft(ws, es, i, j - 1, y);
      EveryStateSecure(ws, es, j - 1);
      assert Step(ws[j - 1], es[j - 1], ws[j]);
      StepSecure(ws[j - 1], es[j - 1], ws[j]);
      ViewTrans(ws[i].phys.mem, ws[j - 1].phys.mem, ws[j].phys.mem, y);
    }
  }

  /** A system with one process, empty on a zeroed page. */
  lemma FirstSystem(s: Phys, root: Pfn)
    requires Sane(s) && s.mem[root] == ZeroPage() && root !in s.free && 0 < root <= s.top
    ensures Secure(System(s, {root}, {}))
  {
    hide Isolated, Reach;
    EmptyIsolated(s, root);
  }
}
