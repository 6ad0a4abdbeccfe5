/** Octal numbers in archive headers. */
module Octal {
  import opened Machine
  import opened HeapMem

  const ZERO: byte := 48
  const SPACE: byte := 32

  /** A char is signed. */
  function Char(c: byte): (i: int)
    ensures -128 <= i < 128 && (c - i) % 256 == 0
  {
    if c < 128 then c else c - 256
  }

  /** One round of oct2bin, in 64-bit arithmetic. */
  function Step(n: nat, c: byte): nat {
    (n * 8 + Char(c) - ZERO) % U64
  }

  /** What is left to add to n: everything up to a NUL or the end of the field. */
  function Decode(n: nat, s: seq<byte>): nat
    decreases |s|
  {
    if s == [] || s[0] == 0 then n else Decode(Step(n, s[0]), s[1..])
  }

  method Oct2Bin(str: seq<byte>) returns (n: nat)
    ensures n == Decode(0, str)
  {
    n := 0;
    var i := 0;
    while i < |str| && str[i] != 0
      invariant i <= |str| && Decode(0, str) == Decode(n, str[i..])
    {
      assert str[i..][0] == str[i] && str[i..][1..] == str[i + 1..];
      n := Step(n, str[i]);
      i := i + 1;
    }
  }

  predicate IsOctal(d: seq<byte>) {
    forall i :: 0 <= i < |d| ==> ZERO <= d[i] < ZERO + 8
  }

  function Pow8(k: nat): nat {
    if k == 0 then 1 else 8 * Pow8(k - 1)
  }

  /** The number that octal digits write, most significant first. */
  function Value(d: seq<byte>): nat
    requires IsOctal(d)
  {
    if d == [] then 0 else (d[0] - ZERO) * Pow8(|d| - 1) + Value(d[1..])
  }

  lemma Shift(n: nat, x: nat, p: nat, v: nat)
    ensures (n * 8 + x) * p + v == n * (8 * p) + (x * p + v)
  {
  }

  lemma {:induction false} DecodeDigits(n: nat, d: seq<byte>, t: seq<byte>)
    requires IsOctal(d) && n * Pow8(|d|) + Value(d) < U64
    ensures Decode(n, d + t) == Decode(n * Pow8(|d|) + Value(d), t)
    decreases |d|
  {
    if d == [] {
      assert d + t == t;
    } else {
      var x, p := d[0] - ZERO, Pow8(|d| - 1);
      Shift(n, x, p, Value(d[1..]));
      PowPositive(|d| - 1);
      AtMost(n * 8 + x, p);
      assert Step(n, d[0]) == n * 8 + x;
      assert (d + t)[0] == d[0] && (d + t)[1..] == d[1..] + t;
      DecodeDigits(n * 8 + x, d[1..], t);
    }
  }

  lemma DecodeAll(d: seq<byte>, t: seq<byte>)
    requires IsOctal(d) && Value(d) < U64
    ensures Decode(0, d + t) == Decode(Value(d), t)
  {
    hide Decode, Value, Pow8;
    DecodeDigits(0, d, t);
  }

  lemma {:induction false} PowPositive(k: nat)
    ensures Pow8(k) >= 1
  {
    if k > 0 {
      PowPositive(k - 1);
    }
  }

  lemma AtMost(a: nat, p: nat)
    requires p >= 1
    ensures a <= a * p
  {
  }

  /** The k low octal digits of v. */
  function Digits(k: nat, v: nat): (d: seq<byte>)
    ensures |d| == k && IsOctal(d)
  {
    if k == 0 then [] else Digits(k - 1, v / 8) + [ZERO + v % 8]
  }

  lemma {:induction false} ValueAppend(d: seq<byte>, c: byte)
    requires IsOctal(d) && IsOctal([c])
    ensures Value(d + [c]) == 8 * Value(d) + c - ZERO
  {
    if d == [] {
      assert d + [c] == [c];
    } else {
      assert (d + [c])[1..] == d[1..] + [c];
      ValueAppend(d[1..], c);
      var x, p := d[0] - ZERO, Pow8(|d| - 1);
      assert x * (8 * p) == 8 * (x * p);
    }
  }

  lemma {:induction false} ValueOfDigits(k: nat, v: nat)
    requires v < Pow8(k)
    ensures Value(Digits(k, v)) == v
  {
    if k > 0 {
      ValueOfDigits(k - 1, v / 8);
      ValueAppend(Digits(k - 1, v / 8), ZERO + v % 8);
    }
  }

  lemma DigitsDecoded(k: nat, v: nat, t: seq<byte>)
    requires v < Pow8(k) && v < U64
    ensures Decode(0, Digits(k, v) + t) == Decode(v, t)
  {
    hide Decode, Digits, Value, Pow8;
    ValueOfDigits(k, v);
    DecodeAll(Digits(k, v), t);
  }

  /** oct2bin inverts writing: digits up to a NUL give their number. */
  lemma DecodeInverts(k: nat, v: nat, rest: seq<byte>)
    requires v < Pow8(k) && v < U64
    ensures Decode(0, Digits(k, v) + [0] + rest) == v
  {
    assert Digits(k, v) + [0] + rest == Digits(k, v) + ([0] + rest);
    DigitsDecoded(k, v, [0] + rest);
  }

  lemma ElevenDigits()
    ensures Pow8(11) == 0x2_0000_0000
  {
    assert Pow8(4) == 4096;
    assert Pow8(8) == 4096 * 4096;
  }

  /** Leading spaces. */
  function Spaces(t: seq<byte>): (j: nat)
    ensures j <= |t|
  {
    if t == [] || t[0] != SPACE then 0 else 1 + Spaces(t[1..])
  }

  /** n after j spaces were taken for digits, without wrap-around. */
  function Spoilt(n: int, j: nat): int
    decreases j
  {
    if j == 0 then n else Spoilt(8 * n - 16, j - 1)
  }

  lemma StepSpace(n: int)
    ensures Step(n % U64, SPACE) == (8 * n - 16) % U64
  {
    assert n % U64 * 8 - 16 == 8 * n - 16 - U64 * (8 * (n / U64));
    Multiple(8 * n - 16, 8 * (n / U64));
  }

  lemma Multiple(a: int, k: int)
    ensures (a - U64 * k) % U64 == a % U64
  {
  }

  // Decoding a terminator of spaces and NULs.
  lemma {:induction false} DecodeSpaces(n: int, t: seq<byte>)
    requires IsTerminator(t)
    ensures Decode(n % U64, t) == Spoilt(n, Spaces(t)) % U64
    decreases |t|
  {
    if t != [] && t[0] == SPACE {
      StepSpace(n);
      DecodeSpaces(8 * n - 16, t[1..]);
    }
  }

  /** Seven times the spoilt value is sixteen more than a multiple of what it was for the number itself. */
  lemma {:induction false} SpoiltIs(n: int, j: nat)
    ensures 7 * Spoilt(n, j) - 16 == Pow8(j) * (7 * n - 16)
    decreases j
  {
    if j > 0 {
      SpoiltIs(8 * n - 16, j - 1);
      Regroup(Pow8(j - 1), 7 * n - 16);
    }
  }

  lemma Regroup(p: nat, x: int)
    ensures p * (8 * x) == 8 * p * x
  {
  }

  lemma {:induction false} Pow8Sum(k: nat, j: nat)
    ensures Pow8(k + j) == Pow8(k) * Pow8(j)
    decreases k
  {
    if k > 0 {
      Pow8Sum(k - 1, j);
      Regroup(Pow8(k - 1), Pow8(j));
    }
  }

  lemma {:induction false} Pow8Grows(k: nat, j: nat)
    requires k <= j
    ensures Pow8(k) <= Pow8(j)
    decreases j - k
  {
    if k < j {
      Pow8Grows(k, j - 1);
    }
  }

  lemma SpoiltBound(v: nat, k: nat, j: nat)
    requires v < Pow8(k) && 1 <= j && k + j <= 12
    ensures v < U64 && v < Spoilt(v, j) + U64 && Spoilt(v, j) < U64 && Spoilt(v, j) != v
  {
    SpoiltIs(v, j);
    Pow8Sum(k, j);
    Pow8Grows(k + j, 12);
    Pow8Grows(j, 12);
    Pow8Grows(k, 12);
    ElevenDigits();
    assert Pow8(12) == 0x10_0000_0000;
    PowPositive(j);
    Pow8Grows(1, j);
    assert Pow8(1) == 8;
    var p := Pow8(j);
    Below(p, v, Pow8(k));
    Times(p, v);
  }

  lemma Below(p: nat, v: nat, b: nat)
    requires v < b && p >= 1
    ensures p * v < b * p && p * v >= v
  {
  }

  lemma Times(p: nat, v: nat)
    requires p >= 8
    ensures p * (7 * v - 16) == 7 * (p * v) - 16 * p
    ensures 7 * v - 16 != p * (7 * v - 16)
  {
    Distribute(p, 7 * v, 16);
    Reorder(p, 7, v);
    var x := 7 * v - 16;
    if x >= 1 {
      Larger(p, x);
    } else {
      Larger(p, -x);
      Opposite(p, x);
    }
  }

  lemma Distribute(p: int, x: int, y: int)
    ensures p * (x - y) == p * x - p * y
  {
  }

  lemma Reorder(p: int, a: int, v: int)
    ensures p * (a * v) == a * (p * v)
  {
  }

  lemma Opposite(p: int, x: int)
    ensures p * (-x) == -(p * x)
  {
  }

  lemma Larger(p: int, x: int)
    requires p >= 2 && x >= 1
    ensures p * x > x
  {
  }

  lemma WrapsElsewhere(r: int, v: nat)
    requires v < r + U64 && r < U64 && r != v
    ensures r % U64 != v
  {
    if r < 0 {
      assert r % U64 == r + U64;
    } else {
      assert r % U64 == r;
    }
  }

  ghost predicate IsTerminator(t: seq<byte>) {
    forall i :: 0 <= i < |t| ==> t[i] == 0 || t[i] == SPACE
  }

  lemma DigitsThen(k: nat, v: nat, t: seq<byte>)
    requires k <= 11 && v < Pow8(k) && IsTerminator(t)
    ensures Decode(0, Digits(k, v) + t) == Spoilt(v, Spaces(t)) % U64
  {
    hide Pow8, Spoilt, Decode, Spaces, Digits, IsTerminator;
    SmallPow(k);
    DigitsDecoded(k, v, t);
    assert v % U64 == v;
    DecodeSpaces(v, t);
  }

  /** A size field holds a number of at most eleven digits, then NULs or spaces to its end: oct2bin gives the number
      exactly if the byte after the digits is NUL. */
  lemma OnlyNulTerminates(k: nat, v: nat, t: seq<byte>)
    requires 1 <= k <= 11 && v < Pow8(k) && |t| == 12 - k && IsTerminator(t)
    ensures Decode(0, Digits(k, v) + t) == v <==> t[0] == 0
    ensures Decode(0, Digits(k, v) + t) == Spoilt(v, Spaces(t)) % U64
  {
    hide Digits, Pow8, Decode, Spoilt;
    SmallPow(k);
    DigitsThen(k, v, t);
    hide IsTerminator;
    SpacesFirst(t);
    hide Spaces;
    if t[0] == SPACE {
      SpoiltDiffers(k, v, Spaces(t));
    } else {
      NothingSpoilt(v);
    }
  }

  lemma SpacesFirst(t: seq<byte>)
    requires t != [] && IsTerminator(t)
    ensures (t[0] == 0 && Spaces(t) == 0) || (t[0] == SPACE && Spaces(t) >= 1)
  {
  }

  lemma SpoiltDiffers(k: nat, v: nat, j: nat)
    requires 1 <= k && v < Pow8(k) && j >= 1 && k + j <= 12
    ensures Spoilt(v, j) % U64 != v
  {
    SpoiltBound(v, k, j);
    hide Spoilt, Pow8;
    WrapsElsewhere(Spoilt(v, j), v);
  }

  lemma NothingSpoilt(v: nat)
    ensures Spoilt(v, 0) == v
  {
  }

  lemma SmallPow(k: nat)
    requires k <= 11
    ensures Pow8(k) <= 0x2_0000_0000
  {
    Pow8Grows(k, 11);
    ElevenDigits();
  }
}
