/** 64-bit words as numbers: what masks, shifts and joins of words mean for the numbers they are. */
module Words {
  function Number(w: bv64): nat {
    w as nat
  }

  function Half(w: bv64): bv64 {
    w >> 1
  }

  function Twice(w: bv64): bv64 {
    w << 1
  }

  function Join(a: bv64, b: bv64): bv64 {
    a | b
  }

  predicate Odd(w: bv64) {
    w & 1 == 1
  }

  predicate Apart(a: bv64, b: bv64) {
    a & b == 0
  }

  function ToWord(n: nat): bv64
    requires n < 0x1_0000_0000_0000_0000
  {
    n as bv64
  }

  lemma WordNumber(x: bv64)
    ensures Number(x) < 0x1_0000_0000_0000_0000 && ToWord(Number(x)) == x
  {
  }

  lemma NumberInjective(x: bv64, y: bv64)
    requires Number(x) == Number(y)
    ensures x == y
  {
    hide *;
    WordNumber(x);
    WordNumber(y);
  }

  lemma PlainDoubled(b: bv64)
    requires b <= 0x7fff_ffff_ffff_ffff
    ensures (b << 1) as nat == 2 * (b as nat)
    ensures ((b << 1) | 1) as nat == 2 * (b as nat) + 1
  {
  }

  lemma Doubled(b: bv64)
    requires b <= 0x7fff_ffff_ffff_ffff
    ensures Number(Twice(b)) == 2 * Number(b)
    ensures Number(Join(Twice(b), 1)) == 2 * Number(b) + 1
  {
    PlainDoubled(b);
  }

  lemma Rejoined(w: bv64)
    ensures Half(w) <= 0x7fff_ffff_ffff_ffff
    ensures w == if Odd(w) then Join(Twice(Half(w)), 1) else Twice(Half(w))
  {
  }

  /** The lowest bit, and the word without it. */
  lemma Halve(w: bv64)
    ensures Number(Half(w)) == Number(w) / 2
    ensures Odd(w) <==> Number(w) % 2 == 1
  {
    Rejoined(w);
    Doubled(Half(w));
    hide *;
  }

  lemma HalfThree(w: bv64)
    ensures w >> 3 == Half(Half(Half(w)))
  {
  }

  function RightThree(w: bv64): bv64 {
    w >> 3
  }

  lemma ThreeRight(w: bv64)
    ensures Number(RightThree(w)) == Number(w) / 8
  {
    HalfThree(w);
    hide Number, Half;
    Halve(w);
    Halve(Half(w));
    Halve(Half(Half(w)));
  }

  lemma JoinHalves(a: bv64, b: bv64)
    requires Apart(a, b)
    ensures Apart(Half(a), Half(b)) && Half(Join(a, b)) == Join(Half(a), Half(b))
    ensures Odd(Join(a, b)) <==> Odd(a) || Odd(b)
    ensures !(Odd(a) && Odd(b))
  {
  }

  lemma JoinZero()
    ensures Join(0, 0) == 0 && Number(0) == 0
  {
  }

  /** Joining words without a common bit adds their numbers. */
  lemma {:induction false} JoinAdds(a: bv64, b: bv64)
    requires Apart(a, b)
    ensures Number(Join(a, b)) == Number(a) + Number(b)
    decreases Number(a) + Number(b)
  {
    hide *;
    JoinZero();
    if Number(a) + Number(b) == 0 {
      NumberInjective(a, 0);
      NumberInjective(b, 0);
    } else {
      Halve(a);
      Halve(b);
      Halve(Join(a, b));
      JoinHalves(a, b);
      JoinAdds(Half(a), Half(b));
    }
  }

  function RightNine(w: bv64): bv64 {
    w >> 9
  }

  function RightTwelve(w: bv64): bv64 {
    w >> 12
  }

  function RightForty(w: bv64): bv64 {
    w >> 40
  }

  lemma RightSteps(w: bv64)
    ensures RightNine(w) == RightThree(RightThree(RightThree(w)))
    ensures RightTwelve(w) == RightThree(RightNine(w))
  {
  }

  lemma RightFortySteps(w: bv64)
    ensures RightForty(w) == Half(RightThree(RightTwelve(RightTwelve(RightTwelve(w)))))
  {
  }

  lemma NineRight(w: bv64)
    ensures Number(RightNine(w)) == Number(w) / 512
  {
    hide *;
    RightSteps(w);
    ThreeRight(w);
    ThreeRight(RightThree(w));
    ThreeRight(RightThree(RightThree(w)));
  }

  lemma TwelveRight(w: bv64)
    ensures Number(RightTwelve(w)) == Number(w) / 0x1000
  {
    hide *;
    RightSteps(w);
    NineRight(w);
    ThreeRight(RightNine(w));
  }

  lemma FortyRight(w: bv64)
    ensures Number(RightForty(w)) == Number(w) / 0x100_0000_0000
  {
    hide *;
    RightFortySteps(w);
    TwelveRight(w);
    TwelveRight(RightTwelve(w));
    TwelveRight(RightTwelve(RightTwelve(w)));
    ThreeRight(RightTwelve(RightTwelve(RightTwelve(w))));
    Halve(RightThree(RightTwelve(RightTwelve(RightTwelve(w)))));
  }

  lemma ThreeClear(w: bv64)
    requires Apart(w, 7)
    ensures !Odd(w) && !Odd(Half(w)) && !Odd(Half(Half(w)))
  {
  }

  /** A word whose low bits are clear is a multiple. */
  lemma ClearThree(w: bv64)
    requires Apart(w, 7)
    ensures Number(w) % 8 == 0
  {
    hide *;
    ThreeClear(w);
    Halve(w);
    Halve(Half(w));
    Halve(Half(Half(w)));
  }

  lemma ClearParts(w: bv64)
    ensures Apart(w, 0x1ff) ==> Apart(w, 7) && Apart(RightThree(w), 7) && Apart(RightThree(RightThree(w)), 7)
    ensures Apart(w, 0xfff) ==> Apart(w, 0x1ff) && Apart(RightNine(w), 7)
    ensures Apart(w, 0xff_ffff_ffff) ==>
      && Apart(w, 0xfff) && Apart(RightTwelve(w), 0xfff) && Apart(RightTwelve(RightTwelve(w)), 0xfff)
      && Apart(RightTwelve(RightTwelve(RightTwelve(w))), 7)
      && !Odd(RightThree(RightTwelve(RightTwelve(RightTwelve(w)))))
  {
  }

  lemma ClearNine(w: bv64)
    requires Apart(w, 0x1ff)
    ensures Number(w) % 512 == 0
  {
    hide *;
    ClearParts(w);
    ClearThree(w);
    ClearThree(RightThree(w));
    ClearThree(RightThree(RightThree(w)));
    ThreeRight(w);
    ThreeRight(RightThree(w));
  }

  lemma ClearTwelve(w: bv64)
    requires Apart(w, 0xfff)
    ensures Number(w) % 0x1000 == 0
  {
    hide *;
    ClearParts(w);
    ClearNine(w);
    ClearThree(RightNine(w));
    NineRight(w);
  }

  lemma ClearForty(w: bv64)
    requires Apart(w, 0xff_ffff_ffff)
    ensures Number(w) % 0x100_0000_0000 == 0
  {
    hide *;
    ClearParts(w);
    var x := RightTwelve(w);
    var y := RightTwelve(x);
    var z := RightTwelve(y);
    ClearTwelve(w);
    ClearTwelve(x);
    ClearTwelve(y);
    ClearThree(z);
    TwelveRight(w);
    TwelveRight(x);
    TwelveRight(y);
    ThreeRight(z);
    Halve(RightThree(z));
  }

  function Low(w: bv64, mask: bv64): bv64 {
    w & mask
  }

  function High(w: bv64, mask: bv64): bv64 {
    w & !mask
  }

  lemma Split(w: bv64, mask: bv64)
    ensures Apart(High(w, mask), Low(w, mask)) && Join(High(w, mask), Low(w, mask)) == w && Apart(High(w, mask), mask)
  {
  }

  /** A word is the sum of what a mask selects and of the rest. */
  lemma SplitAdds(w: bv64, mask: bv64)
    ensures Number(w) == Number(High(w, mask)) + Number(Low(w, mask))
  {
    hide *;
    Split(w, mask);
    JoinAdds(High(w, mask), Low(w, mask));
  }

  lemma LowParts(w: bv64)
    ensures RightNine(Low(w, 0x1ff)) == 0 && RightTwelve(Low(w, 0xfff)) == 0 && RightForty(Low(w, 0xff_ffff_ffff)) == 0
  {
  }

  /** The low bits of a word are the remainder of its number. */
  lemma LowNine(w: bv64)
    ensures Number(Low(w, 0x1ff)) == Number(w) % 512
  {
    hide *;
    JoinZero();
    SplitAdds(w, 0x1ff);
    Split(w, 0x1ff);
    ClearNine(High(w, 0x1ff));
    LowParts(w);
    NineRight(Low(w, 0x1ff));
  }

  lemma LowTwelve(w: bv64)
    ensures Number(Low(w, 0xfff)) == Number(w) % 0x1000
    ensures Number(High(w, 0xfff)) == Number(w) - Number(w) % 0x1000
  {
    hide *;
    JoinZero();
    SplitAdds(w, 0xfff);
    Split(w, 0xfff);
    ClearTwelve(High(w, 0xfff));
    LowParts(w);
    TwelveRight(Low(w, 0xfff));
  }

  lemma LowForty(w: bv64)
    ensures Number(Low(w, 0xff_ffff_ffff)) == Number(w) % 0x100_0000_0000
  {
    hide *;
    JoinZero();
    SplitAdds(w, 0xff_ffff_ffff);
    Split(w, 0xff_ffff_ffff);
    ClearForty(High(w, 0xff_ffff_ffff));
    LowParts(w);
    FortyRight(Low(w, 0xff_ffff_ffff));
  }
}
