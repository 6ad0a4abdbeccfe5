/** The ustar archive as tarfs_init indexes it, against archives as they are written. */
module TarFormat {
  import opened Machine
  import opened HeapMem
  import opened Octal

  const BLOCK_SIZE: nat := 512
  const MAX_TAR_FILES: nat := 64
  // Offsets in the header.
  const SIZE_AT: nat := 124
  const TYPE_AT: nat := 156
  const DIR_FLAG: byte := 53

  datatype FileType = RegularFile | Directory

  datatype TarFile = TarFile(name: seq<byte>, addr: nat, size: nat, kind: FileType)

  /** The string at the start of s, of at most n bytes. */
  function CString(s: seq<byte>, n: nat): (r: seq<byte>)
    ensures |r| <= n && r <= s && 0 !in r
  {
    if n == 0 || s == [] || s[0] == 0 then [] else [s[0]] + CString(s[1..], n - 1)
  }

  function SizeAt(data: seq<byte>, p: nat): nat
    requires p + BLOCK_SIZE <= |data|
  {
    Decode(0, data[p + SIZE_AT..p + SIZE_AT + 12])
  }

  function FileAt(data: seq<byte>, p: nat): TarFile
    requires p + BLOCK_SIZE <= |data|
  {
    TarFile(CString(data[p..p + 100], 99), p + BLOCK_SIZE, SizeAt(data, p),
            if data[p + TYPE_AT] == DIR_FLAG then Directory else RegularFile)
  }

  /** How far tarfs_init advances, in 64-bit arithmetic. */
  function Advance(size: nat): nat {
    (BLOCK_SIZE + (size + 511) % U64 / 512 * 512) % U64
  }

  /** Where it looks next: pointers are 64-bit words, so a large advance leads back. */
  function NextAt(data: seq<byte>, p: nat): nat
    requires p + BLOCK_SIZE <= |data|
  {
    (p + Advance(SizeAt(data, p))) % U64
  }

  /** The loop of tarfs_init, started at p, ends after n more headers, all of them inside the data. */
  predicate EndsAfter(data: seq<byte>, p: nat, n: nat)
    decreases n
  {
    && p + BLOCK_SIZE <= |data|
    && if n == 0 then data[p] == 0 else data[p] != 0 && EndsAfter(data, NextAt(data, p), n - 1)
  }

  /** The files that these headers describe, in that order. */
  function Parsed(data: seq<byte>, p: nat, n: nat): (r: seq<TarFile>)
    requires EndsAfter(data, p, n)
    ensures |r| == n
    decreases n
  {
    if n == 0 then [] else [FileAt(data, p)] + Parsed(data, NextAt(data, p), n - 1)
  }

  lemma {:induction false} EndsOnce(data: seq<byte>, p: nat, n: nat, m: nat)
    requires EndsAfter(data, p, n) && EndsAfter(data, p, m)
    ensures n == m
    decreases n
  {
    hide NextAt;
    if n > 0 && m > 0 {
      EndsOnce(data, NextAt(data, p), n - 1, m - 1);
    }
  }

  /** The archive on which tarfs_init ends. */
  ghost predicate Ends(data: seq<byte>) {
    exists n: nat :: EndsAfter(data, 0, n)
  }

  ghost function Rounds(data: seq<byte>): (n: nat)
    requires Ends(data)
    ensures EndsAfter(data, 0, n)
  {
    var n: nat :| EndsAfter(data, 0, n);
    n
  }

  /** All files of the archive. */
  ghost function Files(data: seq<byte>): seq<TarFile>
    requires Ends(data)
  {
    Parsed(data, 0, Rounds(data))
  }

  /** A string ends at the first NUL, or where the limit is. */
  lemma {:induction false} CStringIs(s: seq<byte>, n: nat, i: nat)
    requires i <= n && i <= |s| && (i == n || i == |s| || s[i] == 0) && forall j :: 0 <= j < i ==> s[j] != 0
    ensures CString(s, n) == s[..i]
  {
    if i > 0 {
      CStringIs(s[1..], n - 1, i - 1);
      assert s[..i] == [s[0]] + s[1..][..i - 1];
    }
  }

  /** tarfs_init's copying loop: the name up to its NUL, and the type, set once for each byte copied. */
  method CopyName(field: seq<byte>, typeflag: byte, was: FileType) returns (name: seq<byte>, kind: FileType)
    requires |field| == 100 && field[0] != 0
    ensures name == CString(field, 99)
    ensures kind == if typeflag == DIR_FLAG then Directory else RegularFile
  {
    hide CString;
    name, kind := [], was;
    var i := 0;
    while i < 99 && field[i] != 0
      invariant i <= 99 && name == field[..i] && forall j :: 0 <= j < i ==> field[j] != 0
      invariant i > 0 ==> kind == if typeflag == DIR_FLAG then Directory else RegularFile
    {
      kind := if typeflag == DIR_FLAG then Directory else RegularFile;
      name := name + [field[i]];
      i := i + 1;
    }
    CStringIs(field, 99, i);
  }

  function Min(a: nat, b: nat): nat {
    if a <= b then a else b
  }

  // One round of the loop.
  lemma EndsAt(data: seq<byte>, p: nat, n: nat)
    requires EndsAfter(data, p, n)
    ensures p + BLOCK_SIZE <= |data| && (data[p] == 0 <==> n == 0)
    ensures n == 0 ==> Parsed(data, p, n) == []
    ensures n > 0 ==>
      && EndsAfter(data, NextAt(data, p), n - 1)
      && Parsed(data, p, n) == [FileAt(data, p)] + Parsed(data, NextAt(data, p), n - 1)
  {
    hide FileAt, NextAt;
  }

  lemma FileIs(data: seq<byte>, p: nat)
    requires p + BLOCK_SIZE <= |data|
    ensures data[p..p + 100][0] == data[p]
    ensures FileAt(data, p) ==
      TarFile(CString(data[p..p + 100], 99), p + BLOCK_SIZE, Decode(0, data[p + SIZE_AT..p + SIZE_AT + 12]),
                                       if data[p + TYPE_AT] == DIR_FLAG then Directory else RegularFile)
  {
  }

  /** tarfs_init, for the archive at tar_start; addresses are offsets into it, modulo 2^64. */
  method TarfsInit(data: seq<byte>, files: array<TarFile>) returns (count: nat)
    requires Ends(data) && files.Length == MAX_TAR_FILES
    modifies files
    ensures count == Min(|Files(data)|, 64) && files[..count] == Files(data)[..count]
  {
    hide CString, Decode, Advance, FileAt, EndsAfter, Parsed;
    count := 0;
    var ptr: nat := 0;
    ghost var seen: seq<TarFile>, left: nat := [], Rounds(data);
    EndsAt(data, ptr, left);
    while data[ptr] != 0
      invariant ptr + BLOCK_SIZE <= |data| && EndsAfter(data, ptr, left) && (data[ptr] == 0 <==> left == 0)
      invariant Files(data) == seen + Parsed(data, ptr, left)
      invariant count == Min(|seen|, MAX_TAR_FILES) && files[..count] == seen[..count]
      decreases left
    {
      EndsAt(data, ptr, left);
      var size := Oct2Bin(data[ptr + SIZE_AT..ptr + SIZE_AT + 12]);
      if count < MAX_TAR_FILES {
        var name, kind := CopyName(data[ptr..ptr + 100], data[ptr + TYPE_AT], files[count].kind);
        FileIs(data, ptr);
        files[count] := TarFile(name, ptr + BLOCK_SIZE, size, kind);
        count := count + 1;
      }
      seen, left := seen + [FileAt(data, ptr)], left - 1;
      ptr := (ptr + Advance(size)) % U64;
      EndsAt(data, ptr, left);
    }
    EndsAt(data, ptr, left);
    assert seen + [] == seen;
  }

  /** A file to archive. */
  datatype Entry = Entry(name: seq<byte>, typeflag: byte, contents: seq<byte>) {
    /** Names of up to 100 bytes without a NUL; sizes that eleven octal digits can write. */
    predicate Ok() {
      1 <= |name| <= 100 && 0 !in name && |contents| < Pow8(11)
    }

    function Padded(): nat {
      (|contents| + 511) / 512 * 512
    }
  }

  function Zeros(n: nat): (s: seq<byte>)
    ensures |s| == n && forall i :: 0 <= i < n ==> s[i] == 0
  {
    if n == 0 then [] else [0] + Zeros(n - 1)
  }

  /** The block at p is a ustar header for e; the fields the kernel does not read may hold anything. */
  predicate IsHeader(data: seq<byte>, p: nat, e: Entry)
    requires |e.name| <= 100
  {
    && p + BLOCK_SIZE <= |data|
    && data[p..p + 100] == e.name + Zeros(100 - |e.name|)
    && data[p + SIZE_AT..p + SIZE_AT + 12] == Digits(11, |e.contents|) + [0]
    && data[p + TYPE_AT] == e.typeflag
  }

  /** From p on, data is a ustar archive of es: for each file a header and its contents in whole blocks, then zeros. */
  predicate IsArchive(data: seq<byte>, p: nat, es: seq<Entry>)
    decreases |es|
  {
    if es == [] then p + BLOCK_SIZE <= |data| && data[p] == 0
    else
      && var e := es[0];
      && e.Ok() && IsHeader(data, p, e)
      && p + BLOCK_SIZE + e.Padded() <= |data|
      && data[p + BLOCK_SIZE..p + BLOCK_SIZE + |e.contents|] == e.contents
      && IsArchive(data, p + BLOCK_SIZE + e.Padded(), es[1..])
  }

  /** The index entry says what was archived, and where the contents are. */
  predicate Indexes(data: seq<byte>, f: TarFile, e: Entry) {
    && f.name == e.name[..Min(|e.name|, 99)] && f.size == |e.contents|
    && (f.kind == Directory <==> e.typeflag == 53)
    && f.addr + f.size <= |data| && data[f.addr..f.addr + f.size] == e.contents
  }

  lemma TakeSplits(a: seq<byte>, b: seq<byte>, k: nat)
    requires a != [] && 1 <= k <= |a|
    ensures (a + b)[0] == a[0] && (a + b)[1..] == a[1..] + b
    ensures a[..k] == [a[0]] + a[1..][..k - 1]
  {
  }

  lemma {:induction false} CStringOfName(name: seq<byte>, rest: seq<byte>, n: nat)
    requires 0 !in name && (rest == [] || rest[0] == 0)
    ensures CString(name + rest, n) == name[..Min(|name|, n)]
  {
    if n > 0 {
      if name == [] {
        assert name + rest == rest;
      } else {
        TakeSplits(name, rest, Min(|name|, n));
        CStringOfName(name[1..], rest, n - 1);
      }
    }
  }

  lemma HeaderRead(data: seq<byte>, p: nat, e: Entry)
    requires e.Ok() && IsHeader(data, p, e) && p + BLOCK_SIZE + |e.contents| <= |data|
    requires data[p + BLOCK_SIZE..p + BLOCK_SIZE + |e.contents|] == e.contents
    ensures data[p] != 0 && Indexes(data, FileAt(data, p), e)
    ensures Advance(SizeAt(data, p)) == BLOCK_SIZE + e.Padded()
  {
    SizeRead(data, p, e);
    hide Pow8, Digits, Decode, CString, Zeros, SizeAt, Advance;
    CStringOfName(e.name, Zeros(100 - |e.name|), 99);
    FirstByte(data, p, e.name, Zeros(100 - |e.name|));
  }

  lemma SizeRead(data: seq<byte>, p: nat, e: Entry)
    requires e.Ok() && IsHeader(data, p, e)
    ensures SizeAt(data, p) == |e.contents| && Advance(|e.contents|) == BLOCK_SIZE + e.Padded()
  {
    ElevenDigits();
    hide Pow8, Digits, Decode, Zeros;
    DecodeInverts(11, |e.contents|, []);
    NoRest(Digits(11, |e.contents|) + [0]);
  }

  lemma NoRest(s: seq<byte>)
    ensures s + [] == s
  {
  }

  lemma FirstByte(data: seq<byte>, p: nat, name: seq<byte>, rest: seq<byte>)
    requires p + 100 <= |data| && data[p..p + 100] == name + rest && name != []
    ensures data[p] == name[0] && name[0] in name
  {
    assert data[p] == data[p..p + 100][0];
  }

  /** Reading inverts writing: on every archive the loop ends, having indexed it file by file, in order. */
  lemma {:induction false} ReaderInvertsWriter(data: seq<byte>, p: nat, es: seq<Entry>)
    requires IsArchive(data, p, es) && |data| <= U64
    ensures EndsAfter(data, p, |es|)
    ensures forall i :: 0 <= i < |es| ==> Indexes(data, Parsed(data, p, |es|)[i], es[i])
    decreases |es|
  {
    if es != [] {
      FirstEntry(data, p, es);
      hide IsArchive, Indexes, NextAt, FileAt, EndsAfter;
      var q := p + BLOCK_SIZE + es[0].Padded();
      ReaderInvertsWriter(data, q, es[1..]);
      FitsBelow(data, q, |es| - 1);
      OneMore(data, p, q, |es|);
      forall i | 0 <= i < |es| ensures Indexes(data, Parsed(data, p, |es|)[i], es[i]) {
        if i > 0 {
          Later(FileAt(data, p), Parsed(data, q, |es| - 1), es, i);
        }
      }
    }
  }

  lemma FirstEntry(data: seq<byte>, p: nat, es: seq<Entry>)
    requires IsArchive(data, p, es) && es != []
    ensures p + BLOCK_SIZE <= |data| && data[p] != 0 && Indexes(data, FileAt(data, p), es[0])
    ensures var q := p + BLOCK_SIZE + es[0].Padded(); NextAt(data, p) == q % U64 && IsArchive(data, q, es[1..])
  {
    hide Indexes, SizeAt, FileAt, Advance, IsHeader, Entry.Ok;
    HeaderRead(data, p, es[0]);
  }

  lemma OneMore(data: seq<byte>, p: nat, q: nat, n: nat)
    requires n > 0 && p + BLOCK_SIZE <= |data| && data[p] != 0 && NextAt(data, p) == q && EndsAfter(data, q, n - 1)
    ensures EndsAfter(data, p, n) && Parsed(data, p, n) == [FileAt(data, p)] + Parsed(data, q, n - 1)
  {
    hide NextAt, FileAt;
  }

  lemma Later(f: TarFile, fs: seq<TarFile>, es: seq<Entry>, i: nat)
    requires 0 < i < |es| && |fs| == |es| - 1
    ensures ([f] + fs)[i] == fs[i - 1] && es[i] == es[1..][i - 1]
  {
  }

  lemma FitsBelow(data: seq<byte>, p: nat, n: nat)
    requires EndsAfter(data, p, n) && |data| <= U64
    ensures p % U64 == p
  {
  }

  /** A header block with zeros in all other fields. */
  function Header(e: Entry): (h: seq<byte>)
    requires e.Ok()
    ensures |h| == BLOCK_SIZE
  {
    e.name + Zeros(124 - |e.name|) + Digits(11, |e.contents|) + Zeros(21) + [e.typeflag] + Zeros(355)
  }

  predicate AllOk(es: seq<Entry>) {
    forall i :: 0 <= i < |es| ==> es[i].Ok()
  }

  lemma OkParts(es: seq<Entry>)
    requires AllOk(es) && es != []
    ensures es[0].Ok() && AllOk(es[1..])
  {
    hide Entry.Ok;
  }

  /** An archive of es, ending in two blocks of zeros. */
  function Written(es: seq<Entry>): seq<byte>
    requires AllOk(es)
  {
    if es == [] then Zeros(1024)
    else
      OkParts(es);
      Header(es[0]) + es[0].contents + Zeros(es[0].Padded() - |es[0].contents|) + Written(es[1..])
  }

  lemma PartOfPart(s: seq<byte>, a: nat, n: nat, k: nat, l: nat)
    requires a + n <= |s| && k + l <= n
    ensures s[a..a + n][k..k + l] == s[a + k..a + k + l]
  {
    var x, y := s[a..a + n][k..k + l], s[a + k..a + k + l];
    assert |x| == |y| && forall i :: 0 <= i < l ==> x[i] == y[i];
  }

  lemma HeaderFields(e: Entry)
    requires e.Ok()
    ensures Header(e)[0..100] == e.name + Zeros(100 - |e.name|)
    ensures Header(e)[SIZE_AT..SIZE_AT + 12] == Digits(11, |e.contents|) + [0]
    ensures Header(e)[TYPE_AT] == e.typeflag
  {
    hide Pow8, Digits, Zeros;
  }

  lemma HeaderIs(data: seq<byte>, p: nat, e: Entry)
    requires e.Ok() && p + BLOCK_SIZE <= |data| && data[p..p + BLOCK_SIZE] == Header(e)
    ensures IsHeader(data, p, e)
  {
    HeaderFields(e);
    hide Header, Zeros, Digits;
    PartOfPart(data, p, BLOCK_SIZE, 0, 100);
    PartOfPart(data, p, BLOCK_SIZE, SIZE_AT, 12);
    assert data[p + TYPE_AT] == data[p..p + BLOCK_SIZE][TYPE_AT];
  }

  // The pieces of what is at the end of data.
  lemma Pieces(data: seq<byte>, p: nat, h: seq<byte>, c: seq<byte>, z: seq<byte>, t: seq<byte>)
    requires p <= |data| && data[p..] == h + c + z + t
    ensures var q := p + |h|; var r := q + |c| + |z|;
      r <= |data| && data[p..q] == h && data[q..q + |c|] == c && data[r..] == t
  {
    var s := h + c + z + t;
    assert |data| == p + |h| + |c| + |z| + |t|;
    assert forall i :: 0 <= i < |h| ==> data[p + i] == s[i] == h[i];
    assert forall i :: 0 <= i < |c| ==> data[p + |h| + i] == s[|h| + i] == c[i];
    assert forall i :: 0 <= i < |t| ==> data[p + |h| + |c| + |z| + i] == s[|h| + |c| + |z| + i] == t[i];
  }

  lemma FirstWritten(data: seq<byte>, p: nat, es: seq<Entry>)
    requires AllOk(es) && es != [] && p <= |data| && data[p..] == Written(es)
    ensures es[0].Ok() && AllOk(es[1..])
    ensures var q, c := p + BLOCK_SIZE, es[0].contents;
      && q + es[0].Padded() <= |data| && IsHeader(data, p, es[0])
      && data[q..q + |c|] == c && data[q + es[0].Padded()..] == Written(es[1..])
  {
    OkParts(es);
    var h, c, z := Header(es[0]), es[0].contents, Zeros(es[0].Padded() - |es[0].contents|);
    Pieces(data, p, h, c, z, Written(es[1..]));
    hide Header, Zeros, Written, IsHeader;
    HeaderIs(data, p, es[0]);
  }

  /** What is written is an archive. */
  lemma {:induction false} WrittenIsArchive(data: seq<byte>, p: nat, es: seq<Entry>)
    requires AllOk(es) && p <= |data| && data[p..] == Written(es)
    ensures IsArchive(data, p, es)
    decreases |es|
  {
    hide Written, IsHeader, IsArchive, AllOk, Entry.Padded;
    if es != [] {
      FirstWritten(data, p, es);
      WrittenIsArchive(data, p + BLOCK_SIZE + es[0].Padded(), es[1..]);
      ArchiveOf(data, p, es);
    } else {
      NoneWritten(data, p);
    }
  }

  lemma NoneWritten(data: seq<byte>, p: nat)
    requires p <= |data| && data[p..] == Written([])
    ensures IsArchive(data, p, [])
  {
    assert data[p..][0] == 0;
  }

  lemma ArchiveOf(data: seq<byte>, p: nat, es: seq<Entry>)
    requires es != [] && es[0].Ok() && IsHeader(data, p, es[0])
    requires p + BLOCK_SIZE + es[0].Padded() <= |data|
    requires data[p + BLOCK_SIZE..p + BLOCK_SIZE + |es[0].contents|] == es[0].contents
    requires IsArchive(data, p + BLOCK_SIZE + es[0].Padded(), es[1..])
    ensures IsArchive(data, p, es)
  {
    hide IsHeader, Entry.Ok;
  }

  /** The round trip, for archives written in full: the first 64 files are indexed, each as it was written. */
  lemma WriteThenRead(es: seq<Entry>)
    requires AllOk(es) && |Written(es)| <= U64
    ensures var data := Written(es);
      && Ends(data) && |Files(data)| == |es|
      && forall i :: 0 <= i < |es| ==> Indexes(data, Files(data)[i], es[i])
  {
    var data := Written(es);
    assert data[0..] == data;
    WrittenIsArchive(data, 0, es);
    ReaderInvertsWriter(data, 0, es);
    hide EndsAfter, Indexes, Parsed, Written;
    EndsOnce(data, 0, |es|, Rounds(data));
  }
}
