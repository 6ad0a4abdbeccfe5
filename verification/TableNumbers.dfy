/** How many table pages a pagemap has, in the addresses that the processor finds mapped. */
module TableNumbers {
  import opened Words
  import opened Mmu
  import opened Pte
  import opened PageTree
  import opened VmmSpec
  import opened VmmMap
  import opened VmmRun
  import opened VmmCount
  import opened VmmIsolation
  import opened VmmNumbers
  import VmmWorld

  /** Some address in the n-th region of the given size is mapped. */
  ghost predicate UsedRegion(m: Mem, root: Pfn, n: nat, size: nat)
    requires size > 0
  {
    exists v: nat :: v < 0x1_0000_0000_0000 && v / size == n && LookUp(m, root, v).Leaf?
  }

  // A sequence of indices as one number.
  function Joined(x: seq<nat>): nat {
    if x == [] then 0 else 512 * Joined(x[..|x| - 1]) + x[|x| - 1]
  }

  predicate Indices(x: seq<nat>) {
    forall i :: 0 <= i < |x| ==> x[i] < 512
  }

  lemma {:induction false} JoinedInjective(x: seq<nat>, y: seq<nat>)
    requires |x| == |y| && Indices(x) && Indices(y) && Joined(x) == Joined(y)
    ensures x == y
    decreases |x|
  {
    if x != [] {
      var n := |x| - 1;
      JoinedInjective(x[..n], y[..n]);
      assert x == x[..n] + [x[n]] && y == y[..n] + [y[n]];
    }
  }

  ghost function Numbers(s: set<seq<nat>>): set<nat> {
    set x | x in s :: Joined(x)
  }

  lemma {:induction false} NumbersSize(s: set<seq<nat>>, n: nat)
    requires forall x :: x in s ==> |x| == n && Indices(x)
    ensures |Numbers(s)| == |s|
    decreases |s|
  {
    hide Joined, Indices;
    if s == {} {
      assert Numbers(s) == {};
    } else {
      var x :| x in s;
      NumbersSize(s - {x}, n);
      forall y | y in s - {x} ensures Joined(y) != Joined(x) {
        if Joined(y) == Joined(x) {
          JoinedInjective(x, y);
        }
      }
      assert Numbers(s) == Numbers(s - {x}) + {Joined(x)};
    }
  }

  /** The first address of the page that path p leads to. */
  function AddressOf(p: Path): nat {
    0x80_0000_0000 * p.pml4 + 0x4000_0000 * p.pdpt + 0x20_0000 * p.pd + 0x1000 * p.pt
  }

  lemma AddressParts(a: nat, b: nat, c: nat, d: nat, v: nat)
    requires a < 512 && b < 512 && c < 512 && d < 512
    requires v == 0x80_0000_0000 * a + 0x4000_0000 * b + 0x20_0000 * c + 0x1000 * d
    ensures v / 0x80_0000_0000 == a && v / 0x4000_0000 == 512 * a + b && v / 0x20_0000 == 0x4_0000 * a + 512 * b + c
    ensures v / 0x1000 == 0x800_0000 * a + 0x4_0000 * b + 512 * c + d && v < 0x1_0000_0000_0000
  {
  }

  lemma PathOfAddress(p: Path)
    requires p.Valid()
    ensures PathTo(AddressOf(p)) == p && AddressOf(p) < 0x1_0000_0000_0000
  {
    var v := AddressOf(p);
    AddressParts(p.pml4, p.pdpt, p.pd, p.pt, v);
    LastDigit(0, p.pml4);
    LastDigit(p.pml4, p.pdpt);
    LastDigit(512 * p.pml4 + p.pdpt, p.pd);
    LastDigit(0x4_0000 * p.pml4 + 512 * p.pdpt + p.pd, p.pt);
    IndicesAre(v, p);
    hide AddressOf, Index;
    OnlyPath(p, v);
  }

  lemma LastDigit(a: nat, b: nat)
    requires b < 512
    ensures (512 * a + b) % 512 == b
  {
  }

  lemma IndicesAre(v: nat, p: Path)
    requires v / 0x80_0000_0000 % 512 == p.pml4 && v / 0x4000_0000 % 512 == p.pdpt
    requires v / 0x20_0000 % 512 == p.pd && v / 0x1000 % 512 == p.pt
    ensures OnPath(p, v)
  {
  }

  // The size of the region that n indices choose.
  function RegionSize(n: nat): (size: nat)
    ensures size > 0
  {
    if n == 1 then 0x80_0000_0000 else if n == 2 then 0x4000_0000 else 0x20_0000
  }

  lemma PrefixNumber(v: nat, n: nat)
    requires v < 0x1_0000_0000_0000 && 1 <= n <= 3
    ensures var x := Prefix(PathTo(v), 4, n); |x| == n && Indices(x) && Joined(x) == v / RegionSize(n)
  {
    hide Prefix, Joined, Index;
    var p := PathTo(v);
    RegionNumbers(v);
    if n == 1 {
      PrefixOne(p);
    } else if n == 2 {
      PrefixTwo(p);
    } else {
      PrefixThree(p);
    }
  }

  // The numbers of the regions that v lies in.
  lemma RegionNumbers(v: nat)
    requires v < 0x1_0000_0000_0000
    ensures v / 0x80_0000_0000 == Index(v, 4) && v / 0x4000_0000 == 512 * Index(v, 4) + Index(v, 3)
    ensures v / 0x20_0000 == 512 * (512 * Index(v, 4) + Index(v, 3)) + Index(v, 2)
  {
    Quotients(v);
  }

  lemma PrefixOne(p: Path)
    ensures Prefix(p, 4, 1) == [p.pml4] && Joined([p.pml4]) == p.pml4
  {
    PrefixStep(p, 4, 1);
    JoinedNext([], p.pml4);
    hide Prefix, Joined;
  }

  lemma PrefixTwo(p: Path)
    ensures Prefix(p, 4, 2) == [p.pml4, p.pdpt] && Joined([p.pml4, p.pdpt]) == 512 * p.pml4 + p.pdpt
  {
    hide Prefix, Joined;
    PrefixStep(p, 4, 2);
    PrefixStep(p, 3, 1);
    PrefixOne(p);
    assert [p.pml4] + [p.pdpt] == [p.pml4, p.pdpt];
    JoinedNext([p.pml4], p.pdpt);
  }

  lemma PrefixThree(p: Path)
    ensures Prefix(p, 4, 3) == [p.pml4, p.pdpt, p.pd]
    ensures Joined([p.pml4, p.pdpt, p.pd]) == 512 * (512 * p.pml4 + p.pdpt) + p.pd
  {
    hide Prefix, Joined;
    PrefixStep(p, 4, 3);
    PrefixStep(p, 3, 2);
    PrefixStep(p, 2, 1);
    PrefixTwo(p);
    assert [p.pml4, p.pdpt] + [p.pd] == [p.pml4, p.pdpt, p.pd];
    JoinedNext([p.pml4, p.pdpt], p.pd);
  }

  lemma PrefixStep(p: Path, k: nat, n: nat)
    requires 1 <= n <= k <= 4
    ensures Prefix(p, k, n) == [p.At(k)] + Prefix(p, k - 1, n - 1) && Prefix(p, k - 1, 0) == []
  {
  }

  lemma JoinedNext(x: seq<nat>, i: nat)
    ensures Joined(x + [i]) == 512 * Joined(x) + i && Joined([]) == 0 && [] + [i] == [i]
  {
    assert (x + [i])[..|x|] == x;
  }

  // Mapped prefixes of one length, and the regions they number.
  lemma PrefixIsRegion(m: Mem, root: Pfn, n: nat, x: seq<nat>)
    requires IsTree(m, root, 4, false) && 1 <= n <= 3 && |x| == n && MappedPrefix(m, root, 4, x)
    ensures Indices(x) && UsedRegion(m, root, Joined(x), RegionSize(n))
  {
    hide IsTree, Walk, LookUp, Joined, Seen, Present, Prefix, RegionSize, Indices, PathTo, AddressOf;
    var p: Path :| p.Valid() && Walk(m, root, 4, p) != 0 && x == Prefix(p, 4, |x|);
    PathOfAddress(p);
    PrefixNumber(AddressOf(p), n);
    ZeroOrPresent(m, root, 4, p);
    LookUpIsWalk(m, root, AddressOf(p));
    PresentSeen(Walk(m, root, 4, p));
  }

  lemma PresentSeen(e: bv64)
    ensures Seen(e).Leaf? <==> Present(e)
  {
    hide Number, Present, IsPresent;
    PresentNumber(e);
  }

  lemma RegionIsPrefix(m: Mem, root: Pfn, n: nat, r: nat) returns (x: seq<nat>)
    requires 1 <= n <= 3 && UsedRegion(m, root, r, RegionSize(n))
    ensures |x| == n && Joined(x) == r && MappedPrefix(m, root, 4, x)
  {
    hide Walk, LookUp, Joined, Seen, Present, Prefix, RegionSize, Indices, PathTo;
    var v: nat :| v < 0x1_0000_0000_0000 && v / RegionSize(n) == r && LookUp(m, root, v).Leaf?;
    x := Prefix(PathTo(v), 4, n);
    PrefixNumber(v, n);
    LookUpIsWalk(m, root, v);
    PresentSeen(Walk(m, root, 4, PathTo(v)));
    ZeroAbsent();
  }

  lemma Regions(m: Mem, root: Pfn, prefixes: set<seq<nat>>, n: nat) returns (s: set<seq<nat>>, a: set<nat>)
    requires IsTree(m, root, 4, false) && 1 <= n <= 3
    requires forall x :: x in prefixes <==> x != [] && MappedPrefix(m, root, 4, x)
    ensures s == (set x | x in prefixes && |x| == n) && |a| == |s|
    ensures forall r :: r in a <==> UsedRegion(m, root, r, RegionSize(n))
  {
    hide IsTree, MappedPrefix, UsedRegion, Joined, Indices, RegionSize;
    s := set x | x in prefixes && |x| == n;
    a := Numbers(s);
    forall x | x in s ensures Indices(x) && UsedRegion(m, root, Joined(x), RegionSize(n)) {
      PrefixIsRegion(m, root, n, x);
    }
    NumbersSize(s, n);
    forall r | UsedRegion(m, root, r, RegionSize(n)) ensures r in a {
      var x := RegionIsPrefix(m, root, n, r);
      assert x in s;
    }
  }

  lemma Lengths(m: Mem, root: Pfn, prefixes: set<seq<nat>>)
    requires forall x :: x in prefixes ==> x != [] && MappedPrefix(m, root, 4, x)
    ensures forall x :: x in prefixes ==> 1 <= |x| <= 3
  {
    hide Walk, Prefix;
  }

  lemma ThreeParts(s: set<seq<nat>>, a: set<seq<nat>>, b: set<seq<nat>>, c: set<seq<nat>>)
    requires forall x :: x in s ==> 1 <= |x| <= 3
    requires a == (set x | x in s && |x| == 1) && b == (set x | x in s && |x| == 2) && c == (set x | x in s && |x| == 3)
    ensures |s| == |a| + |b| + |c|
  {
    assert s == a + b + c;
    assert a !! b && (a + b) !! c;
  }

  /** Without empty tables, a pagemap has one page for its root and one for each 512 GiB, each 1 GiB and each 2 MiB
      region in which some address is mapped. */
  lemma TablesNumbered(m: Mem, root: Pfn) returns (a: set<nat>, b: set<nat>, c: set<nat>)
    requires IsTree(m, root, 4, false) && NoEmpty(m, root, 4)
    ensures forall n :: n in a <==> UsedRegion(m, root, n, 0x80_0000_0000)
    ensures forall n :: n in b <==> UsedRegion(m, root, n, 0x4000_0000)
    ensures forall n :: n in c <==> UsedRegion(m, root, n, 0x20_0000)
    ensures |Tables(m, root)| == 1 + |a| + |b| + |c|
  {
    hide IsTree, NoEmpty, MappedPrefix, UsedRegion, Foot;
    var prefixes := TableCount(m, root);
    var s, t, u;
    s, a := Regions(m, root, prefixes, 1);
    t, b := Regions(m, root, prefixes, 2);
    u, c := Regions(m, root, prefixes, 3);
    Lengths(m, root, prefixes);
    ThreeParts(prefixes, s, t, u);
  }

  /** So it is for every live pagemap in every world of a run with clones, releases and other clients. */
  lemma EveryPagemapNumbered(w: VmmWorld.World, r: Pfn) returns (a: set<nat>, b: set<nat>, c: set<nat>)
    requires VmmWorld.Good(w) && VmmWorld.AllTrim(w) && r in w.spaces
    ensures forall n :: n in a <==> UsedRegion(w.phys.mem, r, n, 0x80_0000_0000)
    ensures forall n :: n in b <==> UsedRegion(w.phys.mem, r, n, 0x4000_0000)
    ensures forall n :: n in c <==> UsedRegion(w.phys.mem, r, n, 0x20_0000)
    ensures |Tables(w.phys.mem, r)| == 1 + |a| + |b| + |c|
  {
    VmmWorld.SpaceAt(w.phys, w.spaces, r);
    assert NoEmpty(w.phys.mem, r, 4);
    hide IsTree, NoEmpty, UsedRegion, Foot, Refines, Consistent, Held;
    a, b, c := TablesNumbered(w.phys.mem, r);
  }
}
