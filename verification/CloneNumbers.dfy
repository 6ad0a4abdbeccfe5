/** A clone, told by what the processor finds through it. */
module CloneNumbers {
  import opened Words
  import opened Mmu
  import opened Pte
  import opened PageTree
  import opened PhysMem
  import opened VmmMap
  import opened CloneSpec
  import opened VmmClone
  import opened CloneTheorems
  import opened VmmNumbers

  lemma LowFlagsAre(e: bv64)
    ensures e & LOW_FLAGS == Low(e, 0xfff) && (e & LOW_FLAGS) & ADDR_MASK == 0
  {
  }

  /** A copied entry is the address of its frame and the twelve lowest bits of the source's entry. */
  lemma CopiedNumber(f: Pfn, e: bv64)
    ensures Number(Entry(f, e & LOW_FLAGS)) == 0x1000 * f + Number(e) % 0x1000
  {
    hide Number, Entry, Low;
    LowFlagsAre(e);
    LowTwelve(e);
    EntryNumber(f, e & LOW_FLAGS);
  }

  /** At every address the processor finds through the clone a page exactly if it does through the source: a page that
      was free, with the same contents, and with the twelve lowest bits of the source's entry as its flags. What it
      finds through the source does not change. */
  lemma CloneLooksUp(s0: Phys, s1: Phys, root: Pfn, child: Pfn, v: nat)
    requires Cloned(s0, s1, root, child) && Source(s0.mem, s0, root, 4)
    ensures var c: Pfn := PointsTo(Number(s1.mem[child][0]));
      var r, q := LookUp(s0.mem, root, v), LookUp(s1.mem, c, v);
      && LookUp(s1.mem, root, v) == r
      && (q.Leaf? <==> r.Leaf?)
      && (r.Leaf? ==>
        && q.word == 0x1000 * PointsTo(q.word) + r.word % 0x1000
        && PointsTo(q.word) in s0.free && PointsTo(q.word) !in s1.free
        && s1.mem[PointsTo(q.word)] == s0.mem[PointsTo(r.word)] == s1.mem[PointsTo(r.word)])
  {
    var c, p := TopLevel(s1.mem, child), PathTo(v);
    CloneAtPath(s0, s1, root, child, p);
    FrameNumber(s1.mem[child][0]);
    hide Cloned, Source, LookUp, Walk, PathTo, Number, Present, IsPresent, PointsTo, Frame, Entry, Foot;
    LookUpIsWalk(s0.mem, root, v);
    LookUpIsWalk(s1.mem, root, v);
    LookUpIsWalk(s1.mem, c, v);
    EntrySeen(s0, s1, root, c, p);
  }

  lemma EntrySeen(s0: Phys, s1: Phys, root: Pfn, c: Pfn, p: Path)
    requires p.Valid() && CopiedAt(s0, s1, root, c, p)
    ensures var r, q := Seen(Walk(s0.mem, root, 4, p)), Seen(Walk(s1.mem, c, 4, p));
      && Seen(Walk(s1.mem, root, 4, p)) == r
      && (q.Leaf? <==> r.Leaf?)
      && (r.Leaf? ==>
        && q.word == 0x1000 * PointsTo(q.word) + r.word % 0x1000
        && PointsTo(q.word) in s0.free && PointsTo(q.word) !in s1.free
        && s1.mem[PointsTo(q.word)] == s0.mem[PointsTo(r.word)] == s1.mem[PointsTo(r.word)])
  {
    hide Walk, Number, Present, IsPresent, PointsTo, Frame, Entry, Foot;
    var e, f := Walk(s0.mem, root, 4, p), Walk(s1.mem, c, 4, p);
    PresentNumber(e);
    PresentNumber(f);
    FrameNumber(e);
    FrameNumber(f);
    ZeroAbsent();
    if Present(e) {
      CopiedNumber(Frame(f), e);
    }
  }

  /** So a page of the clone is writable, and open to the user, exactly if the source's is, and never forbids execution,
      even where the source does. */
  lemma ClonePermissions(f: Pfn, w: nat)
    ensures var q := 0x1000 * f + w % 0x1000;
      && (IsPresent(q) <==> IsPresent(w)) && (IsWritable(q) <==> IsWritable(w)) && (IsUser(q) <==> IsUser(w))
      && !IsNoExecute(q)
  {
    BitsOfSum(0x1000 * f + w % 0x1000, 0, f, w % 0x1000);
    LowOfSum(w, w / 0x1000 * 512, w % 0x1000);
  }
}
