/** When the loop of tarfs_init ends. */
module TarLoop {
  import opened Machine
  import opened HeapMem
  import opened Octal
  import opened TarFormat

  /** The positions of the headers that the loop looks at, the empty one at the end included. */
  ghost function Visits(data: seq<byte>, p: nat, n: nat): set<nat>
    requires EndsAfter(data, p, n)
    decreases n
  {
    {p} + if n == 0 then {} else Visits(data, NextAt(data, p), n - 1)
  }

  // From any of them the loop ends, no later.
  lemma {:induction false} VisitEnds(data: seq<byte>, p: nat, n: nat, q: nat) returns (m: nat)
    requires EndsAfter(data, p, n) && q in Visits(data, p, n)
    ensures m <= n && EndsAfter(data, q, m)
    decreases n
  {
    hide NextAt;
    if q == p {
      m := n;
    } else {
      m := VisitEnds(data, NextAt(data, p), n - 1, q);
    }
  }

  /** A loop that ends never looks at the same place twice. */
  lemma {:induction false} VisitsDistinct(data: seq<byte>, p: nat, n: nat)
    requires EndsAfter(data, p, n)
    ensures |Visits(data, p, n)| == n + 1
    decreases n
  {
    hide NextAt;
    if n > 0 {
      var q := NextAt(data, p);
      VisitsDistinct(data, q, n - 1);
      if p in Visits(data, q, n - 1) {
        var m := VisitEnds(data, q, n - 1, p);
        EndsOnce(data, p, n, m);
      }
    }
  }

  lemma NextIsBlock(data: seq<byte>, p: nat)
    requires p + BLOCK_SIZE <= |data| && p % BLOCK_SIZE == 0
    ensures NextAt(data, p) % BLOCK_SIZE == 0
  {
    hide SizeAt;
    var x := (SizeAt(data, p) + 511) % U64 / 512;
    WholeBlocks(1 + x);
    WholeBlocks(p / BLOCK_SIZE + Advance(SizeAt(data, p)) / BLOCK_SIZE);
  }

  lemma WholeBlocks(x: nat)
    ensures x * BLOCK_SIZE % U64 % BLOCK_SIZE == 0
  {
    var y := x * BLOCK_SIZE;
    var k := y / U64;
    assert y % U64 == BLOCK_SIZE * (x - k * (U64 / BLOCK_SIZE));
  }

  // Each position is the start of a whole block of the data.
  lemma {:induction false} VisitsBlocks(data: seq<byte>, p: nat, n: nat, q: nat)
    requires EndsAfter(data, p, n) && p % BLOCK_SIZE == 0 && q in Visits(data, p, n)
    ensures q % BLOCK_SIZE == 0 && q / BLOCK_SIZE < |data| / BLOCK_SIZE
    decreases n
  {
    hide NextAt;
    if q != p {
      NextIsBlock(data, p);
      VisitsBlocks(data, NextAt(data, p), n - 1, q);
    }
  }

  lemma {:induction false} AtMostBlocks(s: set<nat>, k: nat)
    requires forall q :: q in s ==> q % BLOCK_SIZE == 0 && q / BLOCK_SIZE < k
    ensures |s| <= k
    decreases k
  {
    if k == 0 {
      assert s == {};
    } else {
      var last := (k - 1) * BLOCK_SIZE;
      forall q | q in s - {last} ensures q / BLOCK_SIZE < k - 1 {
      }
      AtMostBlocks(s - {last}, k - 1);
    }
  }

  /** If the loop ends it does so before it has looked at as many headers as the data has blocks. */
  lemma RoundsBounded(data: seq<byte>, n: nat)
    requires EndsAfter(data, 0, n)
    ensures n < |data| / BLOCK_SIZE
  {
    hide EndsAfter;
    var s := Visits(data, 0, n);
    VisitsDistinct(data, 0, n);
    forall q | q in s ensures q % BLOCK_SIZE == 0 && q / BLOCK_SIZE < |data| / BLOCK_SIZE {
      VisitsBlocks(data, 0, n, q);
    }
    hide Visits;
    AtMostBlocks(s, |data| / BLOCK_SIZE);
  }

  /** The loop, started at p, ends inside the data after less than k headers: what a caller can check beforehand. */
  predicate EndsWithin(data: seq<byte>, p: nat, k: nat)
    decreases k
  {
    k > 0 && p + BLOCK_SIZE <= |data| && (data[p] == 0 || EndsWithin(data, NextAt(data, p), k - 1))
  }

  lemma {:induction false} WithinEnds(data: seq<byte>, p: nat, k: nat) returns (n: nat)
    requires EndsWithin(data, p, k)
    ensures n < k && EndsAfter(data, p, n)
    decreases k
  {
    hide NextAt;
    if data[p] == 0 {
      n := 0;
    } else {
      n := WithinEnds(data, NextAt(data, p), k - 1);
      n := n + 1;
    }
  }

  lemma {:induction false} EndsIsWithin(data: seq<byte>, p: nat, n: nat, k: nat)
    requires EndsAfter(data, p, n) && n < k
    ensures EndsWithin(data, p, k)
    decreases n
  {
    hide NextAt;
    if n > 0 {
      EndsIsWithin(data, NextAt(data, p), n - 1, k - 1);
    }
  }

  /** tarfs_init ends, having looked at nothing outside the data, exactly if it does within as many rounds as the data
      has blocks. */
  lemma EndsExactly(data: seq<byte>)
    ensures Ends(data) <==> EndsWithin(data, 0, |data| / BLOCK_SIZE)
  {
    hide EndsAfter, EndsWithin;
    if Ends(data) {
      RoundsBounded(data, Rounds(data));
      EndsIsWithin(data, 0, Rounds(data), |data| / BLOCK_SIZE);
    }
    if EndsWithin(data, 0, |data| / BLOCK_SIZE) {
      var n := WithinEnds(data, 0, |data| / BLOCK_SIZE);
    }
  }

  /** The advance is the header and the contents in whole blocks exactly for sizes up to 2^64 - 1024; it is zero
      exactly for the 512 sizes that round up to 2^64 - 512. */
  lemma AdvanceExact(size: nat)
    requires size < U64
    ensures Advance(size) == BLOCK_SIZE + (size + 511) / 512 * 512 <==> size <= U64 - 1024
    ensures Advance(size) == 0 <==> U64 - 1023 <= size <= U64 - 512
  {
    if size + 511 < U64 {
      RoundedUp(size);
    } else {
      assert (size + 511) % U64 == size + 511 - U64 < 511;
    }
  }

  lemma RoundedUp(size: nat)
    requires size + 511 < U64
    ensures var r := (size + 511) / 512 * 512;
      size <= r <= size + 511 && r <= U64 - 512 && (r == U64 - 512 <==> size >= U64 - 1023)
  {
    var q := (size + 511) / 512;
    assert q * 512 <= size + 511 < q * 512 + 512;
  }

  /** Size fields of one character below the digits, three zeros, and NULs. */
  function OddField(c: byte): seq<byte> {
    [c, 48, 48, 48, 0, 0, 0, 0, 0, 0, 0, 0]
  }

  lemma DecodeFour(s: seq<byte>)
    requires |s| == 12 && s[0] != 0 && s[1] != 0 && s[2] != 0 && s[3] != 0 && s[4] == 0
    ensures Decode(0, s) == Step(Step(Step(Step(0, s[0]), s[1]), s[2]), s[3])
  {
    hide Step;
    DecodeNext(0, s, 0);
    DecodeNext(Step(0, s[0]), s, 1);
    DecodeNext(Step(Step(0, s[0]), s[1]), s, 2);
    DecodeNext(Step(Step(Step(0, s[0]), s[1]), s[2]), s, 3);
    assert s == s[0..];
  }

  lemma DecodeNext(n: nat, s: seq<byte>, i: nat)
    requires i < |s| && s[i] != 0
    ensures Decode(n, s[i..]) == Decode(Step(n, s[i]), s[i + 1..])
  {
    assert s[i..][0] == s[i] && s[i..][1..] == s[i + 1..];
  }

  /** Such a character counts a multiple of 512 below zero. */
  lemma OddSize(c: byte)
    requires 46 <= c < 48
    ensures Decode(0, OddField(c)) == U64 - 512 * (48 - c)
  {
    DecodeFour(OddField(c));
    var d := 48 - c;
    assert Step(0, c) == U64 - d;
    assert Step(U64 - d, 48) == U64 - 8 * d;
    assert Step(U64 - 8 * d, 48) == U64 - 64 * d;
    assert Step(U64 - 64 * d, 48) == U64 - 512 * d;
  }

  ghost predicate SizeFieldIs(data: seq<byte>, p: nat, field: seq<byte>) {
    p + BLOCK_SIZE <= |data| && data[p] != 0 && data[p + SIZE_AT..p + SIZE_AT + 12] == field
  }

  lemma SizeIs(data: seq<byte>, p: nat, c: byte)
    requires 46 <= c < 48 && SizeFieldIs(data, p, OddField(c))
    ensures SizeAt(data, p) == U64 - 512 * (48 - c)
  {
    OddSize(c);
    hide Decode, OddField;
  }

  /** The field "/000" leads back to its own header. */
  lemma StuckField(data: seq<byte>, p: nat)
    requires SizeFieldIs(data, p, OddField(47)) && p < U64
    ensures NextAt(data, p) == p
  {
    hide SizeAt, Advance, OddField;
    SizeIs(data, p, 47);
    LargeAdvance();
  }

  /** The field ".000" leads back to the block before. */
  lemma BackField(data: seq<byte>, p: nat)
    requires SizeFieldIs(data, p, OddField(46)) && BLOCK_SIZE <= p < U64
    ensures NextAt(data, p) == p - BLOCK_SIZE
  {
    hide SizeAt, Advance, OddField;
    SizeIs(data, p, 46);
    LargeAdvance();
    BlockBack(p);
  }

  lemma LargeAdvance()
    ensures Advance(U64 - 1024) == U64 - 512 && Advance(U64 - 512) == 0
  {
  }

  lemma BlockBack(p: nat)
    requires BLOCK_SIZE <= p < U64
    ensures (p + (U64 - 512)) % U64 == p - BLOCK_SIZE
  {
  }

  lemma SmallAdvance(data: seq<byte>, p: nat)
    requires p + 1024 <= |data| && p + 1024 < U64
    ensures SizeAt(data, p) == 0 ==> NextAt(data, p) == p + BLOCK_SIZE
    ensures SizeAt(data, p) == 1 ==> NextAt(data, p) == p + 2 * BLOCK_SIZE
  {
    hide SizeAt;
    assert Advance(0) == BLOCK_SIZE && Advance(1) == 2 * BLOCK_SIZE;
  }

  /** A header that leads to itself is met for ever. */
  lemma {:induction false} NeverEnds(data: seq<byte>, p: nat, n: nat)
    requires p + BLOCK_SIZE <= |data| && data[p] != 0 && NextAt(data, p) == p
    ensures !EndsAfter(data, p, n)
    decreases n
  {
    hide NextAt;
    if n > 0 {
      NeverEnds(data, p, n - 1);
    }
  }

  /** So are two that lead to each other. */
  lemma {:induction false} TwoNeverEnd(data: seq<byte>, p: nat, q: nat, n: nat)
    requires p + BLOCK_SIZE <= |data| && data[p] != 0 && NextAt(data, p) == q
    requires q + BLOCK_SIZE <= |data| && data[q] != 0 && NextAt(data, q) == p
    ensures !EndsAfter(data, p, n)
    decreases n
  {
    hide NextAt;
    if n > 0 {
      TwoNeverEnd(data, q, p, n - 1);
    }
  }

  /** An archive that starts with such a header makes tarfs_init loop for ever. */
  lemma StuckHeader(data: seq<byte>)
    requires SizeFieldIs(data, 0, OddField(47))
    ensures !Ends(data)
  {
    StuckField(data, 0);
    hide OddField, NextAt, EndsAfter;
    forall n: nat ensures !EndsAfter(data, 0, n) {
      NeverEnds(data, 0, n);
    }
  }

  /** So does one of an empty file and then a header that leads back to it, though every advance is non-zero. */
  lemma TwoHeaderLoop(data: seq<byte>)
    requires |data| >= 1024 && data[0] != 0 && SizeAt(data, 0) == 0 && SizeFieldIs(data, BLOCK_SIZE, OddField(46))
    ensures NextAt(data, 0) == BLOCK_SIZE && NextAt(data, BLOCK_SIZE) == 0 && !Ends(data)
  {
    BackField(data, BLOCK_SIZE);
    SmallAdvance(data, 0);
    hide OddField, NextAt, EndsAfter, SizeAt, SizeFieldIs;
    forall n: nat ensures !EndsAfter(data, 0, n) {
      TwoNeverEnd(data, 0, BLOCK_SIZE, n);
    }
  }

  /** And a header can lead back without a loop: here to the contents of the first file, which start with a NUL. */
  lemma StepsBackAndEnds(data: seq<byte>)
    requires |data| >= 1536 && data[0] != 0 && SizeAt(data, 0) == 1 && data[BLOCK_SIZE] == 0
    requires SizeFieldIs(data, 1024, OddField(46))
    ensures NextAt(data, 0) == 1024 && NextAt(data, 1024) == BLOCK_SIZE && EndsAfter(data, 0, 2)
  {
    BackField(data, 1024);
    SmallAdvance(data, 0);
    assert data[1024] != 0;
    hide OddField, NextAt, SizeAt, SizeFieldIs;
    assert EndsAfter(data, BLOCK_SIZE, 0);
    assert EndsAfter(data, 1024, 1);
  }
}
