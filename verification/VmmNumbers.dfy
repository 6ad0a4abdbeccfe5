/** Mapping, unmapping and runs of both, told by what the processor then finds at each address. */
module VmmNumbers {
  import opened Words
  import opened Mmu
  import opened Pte
  import opened PageTree
  import opened PhysMem
  import opened VmmSpec
  import opened VmmMap
  import opened VmmRun

  function Seen(e: bv64): Finding {
    if IsPresent(Number(e)) then Leaf(Number(e)) else Fault
  }

  lemma LookUpIsWalk(m: Mem, root: Pfn, v: nat)
    ensures LookUp(m, root, v) == Seen(Walk(m, root, 4, PathTo(v)))
  {
    hide Walk, EntryAt, Number, PathTo;
    WalkByNumbers(m, root, 4, PathTo(v), v);
  }

  lemma SamePagePath(va: bv64, v: nat)
    ensures PathTo(v) == PathOf(va) <==> SamePage(v, Number(va))
  {
    hide PathOf, Number, SamePage, Index;
    PathIndices(va);
    OnlyPath(PathOf(va), Number(va));
    SamePageIndices(v, Number(va));
  }

  lemma SeenLeaf(pa: bv64, flags: bv64)
    requires Number(pa) < 0x10_0000_0000_0000 && PlainFlags(Number(flags))
    ensures Seen(LeafEntry(pa, flags)) == Leaf(LeafWord(Number(pa), Number(flags)))
  {
    hide LeafEntry, Number, LeafWord, PlainFlags, Present, IsPresent;
    LeafNumber(pa, flags);
    LeafPresent(pa, flags);
    PresentNumber(LeafEntry(pa, flags));
  }

  lemma ZeroSeen()
    ensures Seen(0) == Fault
  {
    ZeroNumber();
  }

  /** After a successful map the processor finds, at every address of the page, the physical page with the caller's
      flags and the present bit; at every other address, and after a failed map, what it found before. */
  lemma MapLooksUp(s: Phys, root: Pfn, va: bv64, pa: bv64, flags: bv64, v: nat)
    requires Owned(s, root, 4, false) && Sane(s)
    requires Number(pa) < 0x10_0000_0000_0000 && PlainFlags(Number(flags))
    ensures var (s1, ok) := Mapped(s, root, va, pa, flags);
      LookUp(s1.mem, root, v) ==
        if ok && SamePage(v, Number(va)) then Leaf(LeafWord(Number(pa), Number(flags))) else LookUp(s.mem, root, v)
  {
    hide Owned, Mapped, Walk, Number, Seen, LookUp, PathTo, PathOf, LeafEntry, LeafWord, PlainFlags, SamePage;
    var s1 := Mapped(s, root, va, pa, flags).0;
    LookUpIsWalk(s.mem, root, v);
    LookUpIsWalk(s1.mem, root, v);
    MapWalkPath(s, root, va, pa, flags, PathTo(v));
    SamePagePath(va, v);
    SeenLeaf(pa, flags);
  }

  lemma LeafKeepsFlags(pa: bv64, flags: bv64)
    requires pa & 0xfff0_0000_0000_0000 == 0 && flags & ADDR_MASK == 0
    ensures Flags(LeafEntry(pa, flags)) == flags | PRESENT
  {
  }

  /** The entry that a successful map leaves at va has the caller's flags, present, and no others. */
  lemma MapKeepsFlags(s: Phys, root: Pfn, va: bv64, pa: bv64, flags: bv64)
    requires Owned(s, root, 4, false) && Sane(s)
    requires pa & 0xfff0_0000_0000_0000 == 0 && flags & ADDR_MASK == 0
    ensures var (s1, ok) := Mapped(s, root, va, pa, flags);
      ok ==> Flags(Walk(s1.mem, root, 4, PathOf(va))) == flags | PRESENT
  {
    hide Owned, Mapped, Walk, PathOf, LeafEntry, Flags;
    MapWalkPath(s, root, va, pa, flags, PathOf(va));
    LeafKeepsFlags(pa, flags);
  }

  /** What the bits of such an entry allow is what the flags say. */
  lemma LeafBits(pa: nat, flags: nat)
    requires pa < 0x10_0000_0000_0000 && PlainFlags(flags)
    ensures var w := LeafWord(pa, flags);
      && IsPresent(w) && PointsTo(w) == pa / 0x1000
      && (IsWritable(w) <==> IsWritable(flags)) && (IsUser(w) <==> IsUser(flags))
      && (IsNoExecute(w) <==> IsNoExecute(flags))
  {
    var low, high := flags % 0x1000, flags / 0x10_0000_0000_0000;
    hide LeafWord, PlainFlags, IsPresent, IsWritable, IsUser, IsNoExecute, PointsTo;
    FieldClear(flags);
    LowPresent(flags);
    LeafSum(pa, flags);
    var l := low + if IsPresent(low) then 0 else 1;
    SetLowest(low, l);
    BitsOfSum(LeafWord(pa, flags), high, pa / 0x1000, l);
    BitsOfSum(flags, high, 0, low);
  }

  lemma FieldClear(flags: nat)
    requires PlainFlags(flags)
    ensures flags == flags / 0x10_0000_0000_0000 * 0x10_0000_0000_0000 + flags % 0x1000
  {
  }

  lemma LowPresent(flags: nat)
    ensures IsPresent(flags) <==> IsPresent(flags % 0x1000)
  {
  }

  lemma LeafSum(pa: nat, flags: nat)
    requires flags == flags / 0x10_0000_0000_0000 * 0x10_0000_0000_0000 + flags % 0x1000
    ensures LeafWord(pa, flags) ==
      flags / 0x10_0000_0000_0000 * 0x10_0000_0000_0000 + pa / 0x1000 * 0x1000
      + (flags % 0x1000 + if IsPresent(flags) then 0 else 1)
  {
    hide IsPresent;
  }

  // Setting the lowest bit leaves the others.
  lemma SetLowest(low: nat, l: nat)
    requires low < 0x1000 && l == low + if IsPresent(low) then 0 else 1
    ensures l < 0x1000 && IsPresent(l) && (IsWritable(l) <==> IsWritable(low)) && (IsUser(l) <==> IsUser(low))
  {
    if !IsPresent(low) {
      assert l / 2 == low / 2;
      assert l / 4 == low / 4;
    }
  }

  lemma BitsOfSum(w: nat, high: nat, f: nat, low: nat)
    requires w == high * 0x10_0000_0000_0000 + f * 0x1000 + low && f < 0x100_0000_0000 && low < 0x1000
    ensures (IsPresent(w) <==> IsPresent(low)) && (IsWritable(w) <==> IsWritable(low)) && (IsUser(w) <==> IsUser(low))
    ensures PointsTo(w) == f && (IsNoExecute(w) <==> high / 0x800 % 2 == 1)
  {
    LowOfSum(w, high * 0x2_0000_0000_0000 + f * 512, low);
    FieldOfSum(w, high, f, low);
    TopOfSum(w, high, f * 0x1000 + low);
  }

  lemma HalfOfSum(w: nat, k: nat, low: nat)
    requires w == 2 * k + low
    ensures w % 2 == low % 2 && w / 2 == k + low / 2
  {
  }

  lemma LowOfSum(w: nat, k: nat, low: nat)
    requires w == 8 * k + low
    ensures (IsPresent(w) <==> IsPresent(low)) && (IsWritable(w) <==> IsWritable(low)) && (IsUser(w) <==> IsUser(low))
  {
    HalfOfSum(w, 4 * k, low);
    HalfOfSum(w / 2, 2 * k, low / 2);
    HalfOfSum(w / 4, k, low / 4);
    assert w / 4 == w / 2 / 2 && low / 4 == low / 2 / 2;
  }

  lemma FieldOfSum(w: nat, high: nat, f: nat, low: nat)
    requires w == high * 0x10_0000_0000_0000 + f * 0x1000 + low && f < 0x100_0000_0000 && low < 0x1000
    ensures w / 0x1000 % 0x100_0000_0000 == f
  {
    assert w / 0x1000 == high * 0x100_0000_0000 + f;
  }

  lemma TopOfSum(w: nat, high: nat, rest: nat)
    requires w == high * 0x10_0000_0000_0000 + rest && rest < 0x10_0000_0000_0000
    ensures w / 0x8000_0000_0000_0000 % 2 == high / 0x800 % 2
  {
    assert w / 0x10_0000_0000_0000 == high;
    assert w / 0x8000_0000_0000_0000 == high / 0x800;
  }

  /** Unmapping succeeds exactly for page-aligned addresses; afterwards the processor faults at every address of the
      page, and finds at every other address what it found before. */
  lemma UnmapLooksUp(s: Phys, root: Pfn, va: bv64, v: nat)
    requires Owned(s, root, 4, false)
    requires var e := Walk(s.mem, root, 4, PathOf(va)); e == 0 || Present(e)
    ensures var (s1, ok) := Unmapped(s, root, va);
      && (ok <==> Number(va) % 0x1000 == 0)
      && LookUp(s1.mem, root, v) == if ok && SamePage(v, Number(va)) then Fault else LookUp(s.mem, root, v)
  {
    UnmapResult(s, root, va);
    hide Owned, Unmapped, Walk, Number, Seen, LookUp, PathTo, PathOf, SamePage, Present;
    var s1 := Unmapped(s, root, va).0;
    LookUpIsWalk(s.mem, root, v);
    LookUpIsWalk(s1.mem, root, v);
    UnmapWalkPath(s, root, va, PathTo(v));
    SamePagePath(va, v);
    ZeroSeen();
  }

  lemma LowBits(va: bv64)
    ensures va & PAGE_MASK == Low(va, 0xfff)
  {
  }

  lemma UnmapResult(s: Phys, root: Pfn, va: bv64)
    ensures Unmapped(s, root, va).1 <==> Number(va) % 0x1000 == 0
  {
    LowBits(va);
    hide Low, Number, Present, Walk, PathOf, Prune;
    NumberOfOne();
    LowTwelve(va);
    if Number(va) % 0x1000 == 0 {
      NumberInjective(Low(va, 0xfff), 0);
    }
  }

  lemma EntryJoins(b: bv40, flags: bv64)
    requires flags & ADDR_MASK == 0
    ensures Apart(AddrBits(b), flags) && Join(AddrBits(b), flags) == AddrBits(b) | flags
    ensures Apart(AddrBits(b), 0xfff) && RightTwelve(AddrBits(b)) == Wide(b)
  {
  }

  lemma AddressNumber40(b: bv40)
    ensures Number(AddrBits(b)) == 0x1000 * (b as nat)
  {
    hide AddrBits, Apart, RightTwelve, Number, Join, Wide;
    EntryJoins(b, 0);
    WideNumber(b);
    ClearTwelve(AddrBits(b));
    TwelveRight(AddrBits(b));
  }

  /** An entry is the sum of its frame's address and the flags. */
  lemma EntryNumber(f: Pfn, flags: bv64)
    requires flags & ADDR_MASK == 0
    ensures Number(Entry(f, flags)) == 0x1000 * f + Number(flags)
  {
    var b := EntryIsJoin(f, flags);
    EntryJoins(b, flags);
    hide AddrBits, Apart, Number, Entry, Join;
    AddressNumber40(b);
    JoinAdds(AddrBits(b), flags);
  }

  /** A table linked in by one step down is linked with the flags given, or as present and writable if none are. */
  lemma NextLevelEntry(s: Phys, t: Pfn, i: nat, flags: bv64)
    requires i < 512 && s.free != {} && !Present(s.mem[t][i]) && flags & ADDR_MASK == 0 && 0 !in s.free
    ensures var (s1, next) := NextLevel(s, t, i, true, flags);
      next.Table? && Number(s1.mem[t][i]) == 0x1000 * next.frame + if flags == 0 then 3 else Number(flags)
  {
    hide Entry, Present, Number;
    var (s1, next) := NextLevel(s, t, i, true, flags);
    DefaultFlags();
    EntryNumber(next.frame, if flags != 0 then flags else PRESENT | WRITABLE);
  }

  lemma DefaultFlags()
    ensures Number(PRESENT | WRITABLE) == 3 && (PRESENT | WRITABLE) & ADDR_MASK == 0
    ensures Number(PRESENT | WRITABLE | USER) == 7 && (PRESENT | WRITABLE | USER) & ADDR_MASK == 0
  {
  }

  lemma EntryDown(m: Mem, t: Pfn, k: nat, p: Path, v: nat, l: nat)
    requires 1 <= l < k <= 4 && p.Valid() && OnPath(p, v)
    ensures var e := m[t][p.At(k)];
      EntryAt(m, t, k, v, l) == if Present(e) then EntryAt(m, Frame(e), k - 1, v, l) else 0
  {
    hide Number, Frame, Present, IsPresent, PointsTo, Index;
    assert p.At(k) == Index(v, k);
    PresentNumber(m[t][p.At(k)]);
    FrameNumber(m[t][p.At(k)]);
  }

  lemma EntryHere(m: Mem, t: Pfn, k: nat, p: Path, v: nat)
    requires 1 <= k <= 4 && p.Valid() && OnPath(p, v)
    ensures EntryAt(m, t, k, v, k) == Number(m[t][p.At(k)])
  {
    hide Number, Index;
    assert p.At(k) == Index(v, k);
  }

  lemma NoEntry(m: Mem, t: Pfn, k: nat, v: nat, l: nat)
    requires 1 <= l <= k <= 4 && m[t] == ZeroPage()
    ensures EntryAt(m, t, k, v, l) == 0
  {
    ZeroNumber();
    hide Number, Index;
  }

  // What a map does to the entry at level l on its way: one that is there stays, a new one has the table flags.
  ghost predicate Linking(w: nat, w2: nat, ok: bool, flags: bv64) {
    && (IsPresent(w) ==> w2 == w)
    && (!IsPresent(w) && ok ==> w2 == 0x1000 * PointsTo(w2) + Number(flags))
  }

  lemma NewEntry(f: Pfn, flags: bv64, w: nat)
    requires w == 0x1000 * f + Number(flags) && Number(flags) < 0x1000
    ensures w == 0x1000 * PointsTo(w) + Number(flags)
  {
    hide Number;
  }

  lemma {:induction false} PlantLinks(s: Phys, t: Pfn, k: nat, p: Path, flags: bv64, e: bv64, v: nat, l: nat)
    requires 2 <= l <= k <= 4 && p.Valid() && OnPath(p, v) && TableFlags(flags) && Number(flags) < 0x1000 && Present(e)
    requires Owned(s, t, k, false) && Sane(s)
    ensures var (s2, ok) := Plant(s, t, k, p, flags, e);
      Linking(EntryAt(s.mem, t, k, v, l), EntryAt(s2.mem, t, k, v, l), ok, flags)
    decreases k
  {
    hide Present, Frame, TableFlags, IsTree, Foot, SlotFoot, NextLevel, EntryAt, OnPath, Number, Linking;
    var i := p.At(k);
    Descend(s, t, i, k, flags);
    var (s1, next) := NextLevel(s, t, i, true, flags);
    var (s2, ok) := Plant(s, t, k, p, flags, e);
    if next.NoTable? {
      SameLink(EntryAt(s.mem, t, k, v, l), ok, flags);
    } else {
      PlantGrows(s1, next.frame, k - 1, p, flags, e);
      GrowUp(s, s1, s2, t, i, k, next.frame, false);
      if l == k {
        EntryHere(s.mem, t, k, p, v);
        EntryHere(s2.mem, t, k, p, v);
        StepLinks(s, t, i, flags, ok);
      } else {
        PlantLinks(s1, next.frame, k - 1, p, flags, e, v, l);
        EntryDown(s.mem, t, k, p, v, l);
        EntryDown(s2.mem, t, k, p, v, l);
        NoSlot(s.mem, t, i, k, false);
        if s.mem[t][i] == 0 {
          NoEntry(s1.mem, next.frame, k - 1, v, l);
        }
      }
    }
  }

  lemma SameLink(w: nat, ok: bool, flags: bv64)
    requires !ok
    ensures Linking(w, w, ok, flags)
  {
  }

  lemma StepLinks(s: Phys, t: Pfn, i: nat, flags: bv64, ok: bool)
    requires i < 512 && Sane(s) && TableFlags(flags) && Number(flags) < 0x1000
    requires NextLevel(s, t, i, true, flags).1.Table?
    ensures var s1 := NextLevel(s, t, i, true, flags).0; Linking(Number(s.mem[t][i]), Number(s1.mem[t][i]), ok, flags)
  {
    PlainTableFlags(flags);
    hide Present, TableFlags, Number, Entry, IsPresent, PointsTo;
    PresentNumber(s.mem[t][i]);
    if !Present(s.mem[t][i]) {
      NextLevelEntry(s, t, i, flags);
      var (s1, next) := NextLevel(s, t, i, true, flags);
      NewEntry(next.frame, flags, Number(s1.mem[t][i]));
    }
  }

  lemma PlainTableFlags(flags: bv64)
    requires TableFlags(flags)
    ensures flags & ADDR_MASK == 0 && flags != 0
  {
  }

  lemma UserIsThirdBit(flags: bv64)
    ensures TableFlagsFor(flags) == if Odd(Half(Half(flags))) then PRESENT | WRITABLE | USER else PRESENT | WRITABLE
  {
  }

  lemma UserBit(flags: bv64)
    ensures TableFlagsFor(flags) == if IsUser(Number(flags)) then PRESENT | WRITABLE | USER else PRESENT | WRITABLE
  {
    hide Number, Half, Odd, TableFlagsFor;
    UserIsThirdBit(flags);
    Halve(flags);
    Halve(Half(flags));
    Halve(Half(Half(flags)));
  }

  lemma TableFlagsNumber(flags: bv64)
    ensures Number(TableFlagsFor(flags)) == if IsUser(Number(flags)) then 7 else 3
  {
    DefaultFlags();
    UserBit(flags);
    hide Number, TableFlagsFor;
  }

  /** On its way a map leaves every table entry that is present as it is; those it makes are present and writable, and
      open to the user exactly if the caller's flags are. */
  lemma MapMakesTables(s: Phys, root: Pfn, va: bv64, pa: bv64, flags: bv64, l: nat)
    requires Owned(s, root, 4, false) && Sane(s) && 2 <= l <= 4
    ensures var (s1, ok) := Mapped(s, root, va, pa, flags);
      var w, w1 := EntryAt(s.mem, root, 4, Number(va), l), EntryAt(s1.mem, root, 4, Number(va), l);
      && (IsPresent(w) ==> w1 == w)
      && (!IsPresent(w) && ok ==> w1 == 0x1000 * PointsTo(w1) + if IsUser(Number(flags)) then 7 else 3)
  {
    TableFlagsGood(flags);
    hide Owned, PathOf, LeafEntry, TableFlagsFor, TableFlags, Plant, EntryAt, Number, Present, OnPath, IsPresent,
         PointsTo, IsUser;
    LeafPresent(pa, flags);
    TableFlagsNumber(flags);
    PathIndices(va);
    PlantLinks(s, root, 4, PathOf(va), TableFlagsFor(flags), LeafEntry(pa, flags), Number(va), l);
  }

  /** Maps of nameable addresses, with flags that leave the address bits alone. */
  predicate PlainOp(op: Op) {
    op.Map? ==> Number(op.pa) < 0x10_0000_0000_0000 && PlainFlags(Number(op.flags))
  }

  /** What the processor finds at v through root after one operation, given what it found before. */
  function Found(r: Finding, op: Op, ok: bool, root: Pfn, v: nat): Finding {
    if !ok || op.root != root || !SamePage(v, Number(op.va)) then r
    else if op.Map? then Leaf(LeafWord(Number(op.pa), Number(op.flags)))
    else Fault
  }

  /** And after a run: what the last successful operation on v's page, through root, has left there. */
  ghost function FoundLast(r: Finding, s: Phys, ops: seq<Op>, root: Pfn, v: nat): Finding
    decreases |ops|
  {
    if ops == [] then r
    else
      var (s1, ok) := Exec(s, ops[0]);
      FoundLast(Found(r, ops[0], ok, root, v), s1, ops[1..], root, v)
  }

  // An operation on one pagemap changes nothing that is found through another.
  lemma OtherLookUp(s: Phys, s1: Phys, root: Pfn, r: Pfn, v: nat)
    requires Confined(s, s1, root) && Owned(s, r, 4, false)
    requires forall f :: f in Tables(s.mem, root) ==> f !in Tables(s.mem, r)
    ensures LookUp(s1.mem, r, v) == LookUp(s.mem, r, v)
  {
    hide Walk, IsTree, Foot, Seen, LookUp, PathTo;
    LookUpIsWalk(s.mem, r, v);
    LookUpIsWalk(s1.mem, r, v);
    WalkFrame(s.mem, s1.mem, r, 4, PathTo(v));
  }

  lemma SpaceParts(s: Phys, spaces: map<Pfn, PageMap>, r: Pfn, va: bv64)
    requires Consistent(s, spaces) && r in spaces
    ensures Sane(s) && Owned(s, r, 4, false)
    ensures var e := Walk(s.mem, r, 4, PathOf(va)); e == 0 || Present(e)
  {
    hide Owned, Walk, Tables, Sane, Present, PathOf;
    assert Walk(s.mem, r, 4, PathOf(va)) == Lookup(spaces[r], va);
  }

  lemma StepLooksUp(s: Phys, spaces: map<Pfn, PageMap>, op: Op, root: Pfn, v: nat)
    requires Consistent(s, spaces) && op.root in spaces && root in spaces && PlainOp(op)
    ensures var (s1, ok) := Exec(s, op); LookUp(s1.mem, root, v) == Found(LookUp(s.mem, root, v), op, ok, root, v)
  {
    SpaceParts(s, spaces, op.root, op.va);
    if op.root == root {
      hide Consistent, Owned, Mapped, Unmapped, LookUp, Walk, PathOf, Number, SamePage, LeafWord, PlainFlags, Present;
      match op {
        case Map(_, va, pa, flags) => MapLooksUp(s, root, va, pa, flags, v);
        case Unmap(_, va) => UnmapLooksUp(s, root, va, v);
      }
    } else {
      hide Exec, Walk, IsTree, Foot, Refines, LeavesPresent, LookUp, Number, SamePage, LeafWord;
      ExecConfined(s, op);
      OtherLookUp(s, Exec(s, op).0, op.root, root, v);
    }
  }

  /** After any run of maps and unmaps over any pagemaps, the processor finds at every address what the last successful
      operation on its page has left: the frame and the flags last given, or nothing. */
  lemma {:induction false} RunLooksUp(s: Phys, spaces: map<Pfn, PageMap>, ops: seq<Op>, root: Pfn, v: nat)
    requires Consistent(s, spaces) && (forall op :: op in ops ==> op.root in spaces && PlainOp(op)) && root in spaces
    ensures LookUp(Run(s, ops).mem, root, v) == FoundLast(LookUp(s.mem, root, v), s, ops, root, v)
    decreases |ops|
  {
    hide Exec, Intended, Consistent, LookUp, Found, PlainOp, Held;
    if ops != [] {
      var op := ops[0];
      var (s1, ok) := Exec(s, op);
      var spaces1 := spaces[op.root := Intended(spaces[op.root], op, ok)];
      assert spaces1.Keys == spaces.Keys;
      StepConsistent(s, spaces, op);
      StepLooksUp(s, spaces, op, root, v);
      RunLooksUp(s1, spaces1, ops[1..], root, v);
    }
  }

  /** An empty pagemap lets the processor find nothing. */
  lemma EmptyLooksUp(m: Mem, root: Pfn, v: nat)
    requires m[root] == ZeroPage()
    ensures LookUp(m, root, v) == Fault
  {
    NoEntry(m, root, 4, v, 1);
    hide EntryAt;
  }
}
