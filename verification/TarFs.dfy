/** Open files of the ustar file system: handles in the kernel heap, and reads through them. */
module TarFs {
  import opened Machine
  import opened HeapMem
  import opened HeapSpec
  import opened HeapBlocks
  import opened HeapSteps
  import opened Heap
  import HeapTheorems
  import opened TarFormat

  const SIZEOF_HANDLE: nat := 16
  const SIZEOF_TAR_FILE: nat := 128

  /** The first entry with this name, or the number of entries if there is none. */
  function FirstNamed(files: seq<TarFile>, name: seq<byte>): (i: nat)
    ensures i <= |files| && (i < |files| ==> files[i].name == name)
    ensures forall j :: 0 <= j < i ==> files[j].name != name
  {
    if files == [] then 0
    else if files[0].name == name then 0
    else 1 + FirstNamed(files[1..], name)
  }

  /** How many bytes tarfs_read says it read: bufsize is an int, compared and replaced as an unsigned 64-bit number. */
  function ReadCount(remaining: nat, bufsize: int): int {
    if bufsize < 0 || bufsize > remaining then ToInt32(remaining) else bufsize
  }

  /** The count is sound for every buffer size an int can give, except that a negative one needs what remains to fit an
      int. */
  lemma ReadCountSound(remaining: nat, bufsize: int)
    requires -0x8000_0000 <= bufsize < 0x8000_0000
    ensures 0 <= ReadCount(remaining, bufsize) <= remaining <==> bufsize >= 0 || remaining % 0x1_0000_0000 < 0x8000_0000
    ensures bufsize >= 0 ==> ReadCount(remaining, bufsize) == Min(bufsize, remaining)
    ensures bufsize < 0 && remaining < 0x8000_0000 ==> ReadCount(remaining, bufsize) == remaining
  {
  }

  /** An open file: which one, and how far it has been read. */
  datatype Handle = Handle(file: nat, offset: nat)

  /** What a handle at ptr looks like in memory. */
  ghost predicate HandleAt(m: Bytes, live: Live, table: nat, ptr: nat, h: Handle) {
    && ptr >= 8 && ptr - 8 in live && live[ptr - 8] >= SIZEOF_HANDLE + 8
    && Inside(ptr, SIZEOF_HANDLE)
    && Word(m, ptr) == table + SIZEOF_TAR_FILE * h.file && Word(m, ptr + 8) == h.offset
  }

  ghost predicate HandlesValid(m: Bytes, live: Live, table: nat, open: map<nat, Handle>, files: seq<TarFile>) {
    forall p :: p in open ==>
      && HandleAt(m, live, table, p, open[p])
      && open[p].file < |files| && open[p].offset <= files[open[p].file].size
  }

  // A handle whose block is kept is still there.
  lemma HandleKept(m: Bytes, n: Bytes, live: Live, kept: Live, live': Live, table: nat, p: nat, h: Handle)
    requires HandleAt(m, live, table, p, h) && KeepsBlocks(m, n, kept)
    requires p - 8 in kept && kept[p - 8] == live[p - 8] && p - 8 in live' && live'[p - 8] == live[p - 8]
    ensures HandleAt(n, live', table, p, h)
  {
    hide Word, Slice;
    WordOfBlock(m, n, p - 8, kept[p - 8], p);
    WordOfBlock(m, n, p - 8, kept[p - 8], p + 8);
  }

  lemma HandlesKept(m: Bytes, n: Bytes, live: Live, kept: Live, live': Live, table: nat, open: map<nat, Handle>,
                    files: seq<TarFile>)
    requires HandlesValid(m, live, table, open, files) && KeepsBlocks(m, n, kept)
    requires forall p :: p in open && p >= 8 && p - 8 in live ==>
               && p - 8 in kept && kept[p - 8] == live[p - 8] && p - 8 in live' && live'[p - 8] == live[p - 8]
    ensures HandlesValid(n, live', table, open, files)
  {
    hide HandleAt, KeepsBlocks;
    forall p | p in open ensures HandleAt(n, live', table, p, open[p]) {
      IsLive(m, live, table, p, open[p]);
      HandleKept(m, n, live, kept, live', table, p, open[p]);
    }
  }

  lemma IsLive(m: Bytes, live: Live, table: nat, p: nat, h: Handle)
    requires HandleAt(m, live, table, p, h)
    ensures p >= 8 && p - 8 in live && live[p - 8] >= SIZEOF_HANDLE + 8 && Inside(p, SIZEOF_HANDLE)
  {
  }

  lemma IsFirst(files: seq<TarFile>, name: seq<byte>, i: nat)
    requires i <= |files| && (i < |files| ==> files[i].name == name) && forall j :: 0 <= j < i ==> files[j].name != name
    ensures FirstNamed(files, name) == i
  {
  }

  // What was written in the two words of a handle.
  lemma HandleWritten(m: Bytes, live: Live, table: nat, p: nat, h: Handle, m1: Bytes, m2: Bytes)
    requires p >= 8 && p - 8 in live && live[p - 8] >= SIZEOF_HANDLE + 8 && Inside(p, SIZEOF_HANDLE)
    requires table + SIZEOF_TAR_FILE * h.file < U64 && h.offset < U64
    requires m1 == WriteWord(m, p, table + SIZEOF_TAR_FILE * h.file) && m2 == WriteWord(m1, p + 8, h.offset)
    ensures HandleAt(m2, live, table, p, h)
  {
    hide Word, WriteWord;
    ReadBack(m, p, table + SIZEOF_TAR_FILE * h.file);
    ReadBack(m1, p + 8, h.offset);
    WordElsewhere(m1, p + 8, h.offset, p, 8);
  }

  lemma OffsetWritten(m: Bytes, live: Live, table: nat, p: nat, h: Handle, offset: nat)
    requires HandleAt(m, live, table, p, h) && offset < U64
    ensures HandleAt(WriteWord(m, p + 8, offset), live, table, p, h.(offset := offset))
  {
    hide Word, WriteWord;
    ReadBack(m, p + 8, offset);
    WordElsewhere(m, p + 8, offset, p, 8);
  }

  lemma KeptTrans(m: Bytes, n: Bytes, o: Bytes, live: Live)
    requires KeepsBlocks(m, n, live) && KeepsBlocks(n, o, live)
    ensures KeepsBlocks(m, o, live)
  {
    hide Slice;
  }

  lemma KeptSame(m: Bytes, head: nat, fl: seq<Block>, live: Live)
    requires HeapIs(m, head, fl, live)
    ensures KeepsBlocks(m, m, live)
  {
    Unchanged(m, fl);
    hide Partition, Linked, Headers, SameOutside;
    AllKept(m, m, fl, live);
  }

  // The block granted has room for the request.
  lemma HandleRoom(live: Live, live': Live, ptr: nat, size: nat)
    requires Granted(live, live', ptr, Rounded(size)) && size + 23 < U64
    ensures ptr >= 8 && ptr - 8 in live' && live'[ptr - 8] >= size + 8
  {
    RoundedRoom(size);
    hide FreeRun;
  }

  lemma HandleAdded(m: Bytes, n: Bytes, live: Live, live': Live, table: nat, open: map<nat, Handle>,
                    files: seq<TarFile>, ptr: nat, h: Handle)
    requires HandlesValid(m, live, table, open, files) && KeepsBlocks(m, n, live)
    requires Granted(live, live', ptr, Rounded(SIZEOF_HANDLE)) && HandleAt(n, live', table, ptr, h)
    requires h.file < |files| && h.offset <= files[h.file].size
    ensures HandlesValid(n, live', table, open[ptr := h], files) && ptr !in open
  {
    hide HandleAt, KeepsBlocks, FreeRun;
    forall p | p in open ensures p >= 8 && p - 8 in live {
      IsLive(m, live, table, p, open[p]);
    }
    HandlesKept(m, n, live, live, live', table, open, files);
  }

  lemma HandleClosed(m: Bytes, n: Bytes, live: Live, table: nat, open: map<nat, Handle>, files: seq<TarFile>, ptr: nat)
    requires HandlesValid(m, live, table, open, files) && ptr in open && ptr >= 8 && KeepsBlocks(m, n, live - {ptr - 8})
    ensures HandlesValid(n, live - {ptr - 8}, table, open - {ptr}, files)
  {
    hide HandleAt, KeepsBlocks;
    HandlesKept(m, n, live, live - {ptr - 8}, live - {ptr - 8}, table, open - {ptr}, files);
  }

  lemma HandleNotNull(m: Bytes, live: Live, table: nat, open: map<nat, Handle>, files: seq<TarFile>)
    requires HandlesValid(m, live, table, open, files)
    ensures 0 !in open && open - {0} == open
  {
  }

  function Contents(data: seq<byte>, f: TarFile): seq<byte>
    requires f.addr + f.size <= |data|
  {
    data[f.addr..f.addr + f.size]
  }

  class TarFileSystem {
    const heap: KernelHeap
    // The archive, and tar_files with its address.
    const data: seq<byte>
    const files: array<TarFile>
    const table: nat
    var count: nat
    ghost var open: map<nat, Handle>

    ghost predicate TableValid()
      reads this`count, files
    {
      && files.Length == MAX_TAR_FILES && count <= MAX_TAR_FILES
      && 0 < table && table + SIZEOF_TAR_FILE * MAX_TAR_FILES < U64 && |data| < U64
      && forall i :: 0 <= i < count ==> files[i].addr + files[i].size <= |data|
    }

    ghost predicate Valid()
      reads this, files, heap
    {
      && TableValid() && heap.Valid()
      && HandlesValid(heap.mem, heap.live, table, open, files[..count])
    }

    /** Index an archive whose header loop ends and whose files lie inside it. */
    constructor (h: KernelHeap, archive: seq<byte>, filesAt: nat)
      requires h.Valid() && Ends(archive) && |archive| < U64
      requires 0 < filesAt && filesAt + SIZEOF_TAR_FILE * MAX_TAR_FILES < U64
      requires forall i :: 0 <= i < |Files(archive)| ==>
        Files(archive)[i].addr + Files(archive)[i].size <= |archive|
      ensures Valid() && heap == h && data == archive && open == map[] && fresh(files)
      ensures count == Min(|Files(archive)|, MAX_TAR_FILES) && files[..count] == Files(archive)[..count]
    {
      heap, data, table, open := h, archive, filesAt, map[];
      files := new TarFile[MAX_TAR_FILES](_ => TarFile([], 0, 0, RegularFile));
      new;
      count := TarfsInit(data, files);
      forall i | 0 <= i < count ensures files[i].addr + files[i].size <= |data| {
        assert files[i] == files[..count][i] == Files(data)[i];
      }
    }

    // The loop that tarfs_find and tarfs_open share.
    method Lookup(name: seq<byte>) returns (i: nat)
      requires TableValid()
      ensures i == FirstNamed(files[..count], name)
    {
      i := 0;
      while i < count && files[i].name != name
        invariant i <= count && forall j :: 0 <= j < i ==> files[j].name != name
      {
        i := i + 1;
      }
      IsFirst(files[..count], name, i);
    }

    /** tarfs_find: where a file's contents start, and its size; the null pointer if there is no such file. */
    method Find(name: seq<byte>) returns (addr: nat, size: nat)
      requires Valid()
      ensures var i := FirstNamed(files[..count], name);
        if i < count then addr == files[i].addr && size == files[i].size else addr == 0
    {
      var i := Lookup(name);
      if i < count {
        return files[i].addr, files[i].size;
      }
      return 0, 0;
    }

    // Write both words of a new handle.
    method SetHandle(ptr: nat, i: nat)
      requires heap.Valid() && ptr >= 8 && ptr - 8 in heap.live && heap.live[ptr - 8] >= SIZEOF_HANDLE + 8
      requires table + SIZEOF_TAR_FILE * i < U64
      modifies heap`mem
      ensures heap.Valid() && HandleAt(heap.mem, heap.live, table, ptr, Handle(i, 0))
      ensures KeepsBlocks(old(heap.mem), heap.mem, heap.live - {ptr - 8})
    {
      hide KernelHeap.Valid, KeepsBlocks, HandleAt, WriteBytes;
      ghost var m := heap.mem;
      heap.Fill(ptr - 8, ptr, ToBytes(8, table + SIZEOF_TAR_FILE * i));
      ghost var m1 := heap.mem;
      heap.Fill(ptr - 8, ptr + 8, ToBytes(8, 0));
      HandleWritten(m, heap.live, table, ptr, Handle(i, 0), m1, heap.mem);
      KeptTrans(m, m1, heap.mem, heap.live - {ptr - 8});
    }

    /** tarfs_open: a handle for the first file of that name, at offset 0. */
    method Open(name: seq<byte>) returns (ptr: nat)
      requires Valid()
      modifies this`open, heap
      ensures Valid()
      ensures var i := FirstNamed(files[..count], name);
        ptr == 0 <==>
          || i == count || files[i].kind == Directory
          || forall x :: !FreeRun(old(heap.live), x, Rounded(SIZEOF_HANDLE))
      ensures ptr == 0 ==>
        && open == old(open) && heap.mem == old(heap.mem) && heap.free == old(heap.free)
        && heap.live == old(heap.live)
      ensures ptr == 0 ==> heap.freeListHead == old(heap.freeListHead)
      ensures ptr != 0 ==> Granted(old(heap.live), heap.live, ptr, Rounded(SIZEOF_HANDLE)) && ptr !in old(open)
      ensures ptr != 0 ==> open == old(open)[ptr := Handle(FirstNamed(files[..count], name), 0)]
      ensures KeepsBlocks(old(heap.mem), heap.mem, old(heap.live))
    {
      hide HandlesValid, HeapIs, Granted, KeepsBlocks, FreeRun;
      KeptSame(heap.mem, heap.freeListHead, heap.free, heap.live);
      var i := Lookup(name);
      if i == count || files[i].kind != RegularFile {
        return 0;
      }
      ptr := NewHandle(i);
    }

    // The rest of tarfs_open, once the file is found.
    method NewHandle(i: nat) returns (ptr: nat)
      requires Valid() && i < count
      modifies this`open, heap
      ensures Valid()
      ensures ptr == 0 <==> forall x :: !FreeRun(old(heap.live), x, Rounded(SIZEOF_HANDLE))
      ensures ptr == 0 ==>
        && open == old(open) && heap.mem == old(heap.mem) && heap.free == old(heap.free)
        && heap.live == old(heap.live)
      ensures ptr == 0 ==> heap.freeListHead == old(heap.freeListHead)
      ensures ptr != 0 ==> Granted(old(heap.live), heap.live, ptr, Rounded(SIZEOF_HANDLE)) && ptr !in old(open)
      ensures ptr != 0 ==> open == old(open)[ptr := Handle(i, 0)]
      ensures KeepsBlocks(old(heap.mem), heap.mem, old(heap.live))
    {
      hide HandlesValid, KernelHeap.Valid, Granted, KeepsBlocks, FreeRun, Rounded, HandleAt;
      ghost var m, live := heap.mem, heap.live;
      ptr := heap.Kmalloc(SIZEOF_HANDLE);
      if ptr == 0 {
        return;
      }
      ghost var m1 := heap.mem;
      HandleRoom(live, heap.live, ptr, SIZEOF_HANDLE);
      SetHandle(ptr, i);
      KeptTwice(m, m1, heap.mem, live, heap.live, ptr, Rounded(SIZEOF_HANDLE));
      HandleAdded(m, heap.mem, live, heap.live, table, open, files[..count], ptr, Handle(i, 0));
      open := open[ptr := Handle(i, 0)];
    }

    /** tarfs_close. */
    method Close(fd: nat) returns (r: int)
      requires Valid() && (fd == 0 || fd in open)
      modifies this`open, heap
      ensures Valid() && r == 0 && open == old(open) - {fd}
      ensures heap.live == if fd == 0 then old(heap.live) else old(heap.live) - {fd - 8}
      ensures KeepsBlocks(old(heap.mem), heap.mem, heap.live)
    {
      hide HeapIs, KeepsBlocks;
      if fd != 0 {
        var panicked := heap.Kfree(fd);
        HandleClosed(old(heap.mem), heap.mem, old(heap.live), table, open, files[..count], fd);
        open := open - {fd};
      } else {
        HandleNotNull(heap.mem, heap.live, table, open, files[..count]);
        KeptSame(heap.mem, heap.freeListHead, heap.free, heap.live);
      }
      return 0;
    }

    /** Opening a file and closing it leaves the heap's free list, the live blocks and the open files as they were. */
    method OpenThenClose(name: seq<byte>)
      requires Valid()
      modifies this`open, heap
      ensures Valid() && open == old(open)
      ensures heap.free == old(heap.free) && heap.freeListHead == old(heap.freeListHead) && heap.live == old(heap.live)
    {
      hide HandlesValid, HeapIs, Granted, KeepsBlocks, FreeRun, Rounded;
      ghost var m, head, fl, live := heap.mem, heap.freeListHead, heap.free, heap.live;
      var fd := Open(name);
      if fd != 0 {
        ghost var live' := heap.live;
        var r := Close(fd);
        HeapTheorems.FreeUndoesMalloc(m, head, fl, heap.mem, heap.freeListHead, heap.free, live, live', fd,
                                      Rounded(SIZEOF_HANDLE));
        HeapTheorems.Undone(live, live', fd, Rounded(SIZEOF_HANDLE));
      }
    }

    // Load both words of a handle.
    method LoadHandle(handle: nat) returns (file: nat, offset: nat)
      requires Valid() && handle in open
      ensures file != 0 && (file - table) / SIZEOF_TAR_FILE == open[handle].file < count
      ensures offset == open[handle].offset <= files[open[handle].file].size
    {
      hide HandlesValid, HeapIs;
      HandleIs(heap.mem, heap.live, table, open, files[..count], handle);
      file := heap.Load(handle);
      offset := heap.Load(handle + 8);
    }

    // memcpy out of the archive.
    method CopyOut(buf: array<byte>, from: nat, n: int)
      requires 0 <= n <= buf.Length && from + n <= |data|
      modifies buf
      ensures buf[..n] == data[from..from + n] && buf[n..] == old(buf[n..])
    {
      var i := 0;
      while i < n
        invariant 0 <= i <= n && buf[..i] == data[from..from + i] && buf[i..] == old(buf[i..])
      {
        buf[i] := data[from + i];
        assert data[from..from + i + 1] == data[from..from + i] + [data[from + i]];
        assert buf[..i + 1] == buf[..i] + [buf[i]];
        i := i + 1;
      }
    }

    /** tarfs_read: copy what comes next to the buffer, as much as there is and fits. A negative buffer size takes
        all that remains, which an int must be able to count. */
    method Read(handle: nat, buf: array<byte>, bufsize: int) returns (n: int)
      requires Valid() && (handle == 0 || CanRead(files[..count], open, handle, bufsize, buf.Length))
      modifies this`open, heap`mem, buf
      ensures Valid()
      ensures handle == 0 ==> n == 0 && open == old(open) && heap.mem == old(heap.mem) && buf[..] == old(buf[..])
      ensures handle != 0 ==> HasRead(data, files[..count], old(open), handle, bufsize, n, old(buf[..]), buf[..], open)
    {
      hide HandlesValid, HeapIs, HasRead;
      if handle == 0 {
        return 0;
      }
      var file, offset := LoadHandle(handle);
      if file == 0 {
        return 0;
      }
      var f := files[(file - table) / SIZEOF_TAR_FILE];
      ghost var was, opens := buf[..], open;
      ReadCountSound(f.size - offset, bufsize);
      n := ReadCount(f.size - offset, bufsize);
      CopyOut(buf, f.addr + offset, n);
      FitsWord(handle, offset + n);
      SetOffset(handle, offset + n, files[..count]);
      ReadDone(data, files[..count], opens, handle, bufsize, n, was, buf[..]);
    }

    /** Successive reads, one for each buffer size, concatenate to the next part of the contents. */
    method ReadAll(handle: nat, sizes: seq<nat>) returns (got: seq<byte>)
      requires Valid() && handle in open && forall i :: 0 <= i < |sizes| ==> sizes[i] < 0x8000_0000
      modifies this`open, heap`mem
      ensures Valid() && HasStreamed(data, files[..count], old(open), handle, Sum(sizes), got, open)
    {
      hide HandlesValid, HeapIs, CanRead, HasRead, HasStreamed;
      got := [];
      HandleIs(heap.mem, heap.live, table, open, files[..count], handle);
      NothingStreamed(data, files[..count], open, handle);
      for i := 0 to |sizes|
        invariant Valid()
        invariant HasStreamed(data, files[..count], old(open), handle, Sum(sizes[..i]), got, open)
      {
        got := ReadNext(old(open), handle, sizes, i, got);
      }
      assert sizes[..|sizes|] == sizes;
    }

    // One turn of the loop, with a buffer of its own.
    method ReadNext(ghost start: map<nat, Handle>, handle: nat, sizes: seq<nat>, i: nat, got: seq<byte>)
      returns (r: seq<byte>)
      requires Valid() && i < |sizes| && sizes[i] < 0x8000_0000
      requires HasStreamed(data, files[..count], start, handle, Sum(sizes[..i]), got, open)
      modifies this`open, heap`mem
      ensures Valid() && HasStreamed(data, files[..count], start, handle, Sum(sizes[..i + 1]), r, open)
    {
      hide HandlesValid, HeapIs, CanRead, HasRead, HasStreamed;
      ghost var fs, was := files[..count], open;
      CanReadNext(data, fs, start, handle, Sum(sizes[..i]), got, open, sizes[i]);
      HandleIs(heap.mem, heap.live, table, open, fs, handle);
      var buf := new byte[sizes[i]];
      ghost var before := buf[..];
      var n := Read(handle, buf, sizes[i]);
      ReadFits(data, fs, was, handle, sizes[i], n, before, buf[..], open);
      r := got + buf[..n];
      Streamed(data, fs, start, handle, sizes, i, got, was, n, before, buf[..], open);
    }

    /** Reading an archived file from its start, with buffers that suffice, gives what was archived. */
    method ReadArchived(handle: nat, sizes: seq<nat>, ghost e: Entry) returns (got: seq<byte>)
      requires Valid() && handle in open && forall i :: 0 <= i < |sizes| ==> sizes[i] < 0x8000_0000
      requires open[handle].offset == 0 && open[handle].file < count
      requires Indexes(data, files[open[handle].file], e) && Sum(sizes) >= |e.contents|
      modifies this`open, heap`mem
      ensures Valid() && got == e.contents
    {
      ghost var was, fs := open, files[..count];
      hide HandlesValid, HeapIs, HasStreamed, Indexes;
      got := ReadAll(handle, sizes);
      StreamedAll(data, fs, was, handle, Sum(sizes), got, open, e);
    }

    // handle->offset = offset.
    method SetOffset(handle: nat, offset: nat, ghost fs: seq<TarFile>)
      requires heap.Valid() && HandlesValid(heap.mem, heap.live, table, open, fs)
      requires InFile(fs, open, handle, offset) && offset < U64
      modifies this`open, heap`mem
      ensures heap.Valid() && HandlesValid(heap.mem, heap.live, table, open, fs)
      ensures open == MovedTo(old(open), handle, offset)
    {
      hide KernelHeap.Valid, HandlesValid, MovedTo, WriteBytes, KeepsBlocks, ToBytes, Word;
      ghost var m := heap.mem;
      HandleIs(m, heap.live, table, open, fs, handle);
      heap.Fill(handle - 8, handle + 8, ToBytes(8, offset));
      HandleMoved(m, heap.mem, heap.live, table, open, fs, handle, offset);
      open := MovedTo(open, handle, offset);
    }

    lemma FitsWord(handle: nat, offset: nat)
      requires Valid() && InFile(files[..count], open, handle, offset)
      ensures offset < U64
    {
      hide HandlesValid, HeapIs;
    }
  }

  function MovedTo(open: map<nat, Handle>, p: nat, offset: nat): map<nat, Handle> {
    if p in open then open[p := open[p].(offset := offset)] else open
  }

  predicate InFile(files: seq<TarFile>, open: map<nat, Handle>, p: nat, offset: nat) {
    p in open && open[p].file < |files| && offset <= files[open[p].file].size
  }

  /** Buffer sizes tarfs_read can serve, with room for what it then copies. */
  predicate CanRead(files: seq<TarFile>, open: map<nat, Handle>, p: nat, bufsize: int, room: nat) {
    && p in open && open[p].file < |files| && -0x8000_0000 <= bufsize < 0x8000_0000
    && var size := files[open[p].file].size;
    && open[p].offset <= size
    && (bufsize >= 0 || (size - open[p].offset) % 0x1_0000_0000 < 0x8000_0000)
    && ReadCount(size - open[p].offset, bufsize) <= room
  }

  /** The next n bytes of the file are at the start of the buffer, the rest of the buffer is unchanged, and the
      handle has advanced by n. */
  ghost predicate HasRead(data: seq<byte>, files: seq<TarFile>, open: map<nat, Handle>, p: nat, bufsize: int, n: int,
                          before: seq<byte>, after: seq<byte>, open': map<nat, Handle>) {
    && p in open && open[p].file < |files|
    && var f, offset := files[open[p].file], open[p].offset;
    && f.addr + f.size <= |data| && offset <= f.size
    && n == ReadCount(f.size - offset, bufsize) && 0 <= n <= f.size - offset && n <= |before|
    && after == Contents(data, f)[offset..offset + n] + before[n..]
    && open' == open[p := open[p].(offset := offset + n)]
  }

  lemma TakeAndDrop(s: seq<byte>, n: nat)
    requires n <= |s|
    ensures s == s[..n] + s[n..]
  {
  }

  lemma SplitAt(c: seq<byte>, a: nat, b: nat, d: nat)
    requires a <= b <= d <= |c|
    ensures c[a..d] == c[a..b] + c[b..d]
  {
  }

  /** Reads for amounts that add up to total have returned got, which is the next part of the file, up to its end
      if total reaches it, and have moved the handle just there. */
  ghost predicate HasStreamed(data: seq<byte>, files: seq<TarFile>, open: map<nat, Handle>, p: nat, total: nat,
                              got: seq<byte>, open': map<nat, Handle>) {
    && p in open && open[p].file < |files|
    && var f, offset := files[open[p].file], open[p].offset;
    && f.addr + f.size <= |data| && offset <= f.size
    && var end := Min(offset + total, f.size);
    && got == Contents(data, f)[offset..end] && open' == open[p := open[p].(offset := end)]
  }

  lemma NothingStreamed(data: seq<byte>, files: seq<TarFile>, open: map<nat, Handle>, p: nat)
    requires p in open && open[p].file < |files| && open[p].offset <= files[open[p].file].size
    requires files[open[p].file].addr + files[open[p].file].size <= |data|
    ensures HasStreamed(data, files, open, p, 0, [], open)
  {
    assert open[p := open[p].(offset := open[p].offset)] == open;
  }

  lemma CanReadNext(data: seq<byte>, files: seq<TarFile>, start: map<nat, Handle>, p: nat, total: nat, got: seq<byte>,
                    open: map<nat, Handle>, size: nat)
    requires HasStreamed(data, files, start, p, total, got, open) && size < 0x8000_0000
    ensures p in open && CanRead(files, open, p, size, size)
  {
  }

  lemma ReadFits(data: seq<byte>, files: seq<TarFile>, open: map<nat, Handle>, p: nat, bufsize: int, n: int,
                 before: seq<byte>, after: seq<byte>, open': map<nat, Handle>)
    requires HasRead(data, files, open, p, bufsize, n, before, after, open') && |after| == |before|
    ensures 0 <= n <= |after|
  {
  }

  lemma StreamedAll(data: seq<byte>, files: seq<TarFile>, open: map<nat, Handle>, p: nat, total: nat, got: seq<byte>,
                    open': map<nat, Handle>, e: Entry)
    requires HasStreamed(data, files, open, p, total, got, open') && open[p].offset == 0
    requires Indexes(data, files[open[p].file], e) && total >= |e.contents|
    ensures got == e.contents
  {
    var c := Contents(data, files[open[p].file]);
    assert c[0..|c|] == c;
  }

  // One more read of n bytes, from a on.
  lemma Joined(c: seq<byte>, offset: nat, a: nat, n: nat, got: seq<byte>, before: seq<byte>, after: seq<byte>)
    requires offset <= a && a + n <= |c| && got == c[offset..a] && after == c[a..a + n] + before
    ensures got + after[..n] == c[offset..a + n]
  {
    assert after[..n] == c[a..a + n];
    SplitAt(c, offset, a, a + n);
  }

  // What a stream so far and one more read say together.
  lemma StreamParts(data: seq<byte>, files: seq<TarFile>, start: map<nat, Handle>, p: nat, total: nat, size: nat,
                    got: seq<byte>, open: map<nat, Handle>, n: nat, before: seq<byte>, after: seq<byte>,
                        open': map<nat, Handle>)
    requires HasStreamed(data, files, start, p, total, got, open) && size < 0x8000_0000
    requires HasRead(data, files, open, p, size, n, before, after, open')
    ensures p in start && start[p].file < |files| && n <= |before|
    ensures var f, offset := files[start[p].file], start[p].offset;
      && f.addr + f.size <= |data| && offset <= f.size
      && var a := Min(offset + total, f.size);
      && n == Min(size, f.size - a) && got == Contents(data, f)[offset..a]
      && after == Contents(data, f)[a..a + n] + before[n..] && open' == start[p := start[p].(offset := a + n)]
  {
    var f, offset := files[start[p].file], start[p].offset;
    var a := Min(offset + total, f.size);
    ReadCountSound(f.size - a, size);
    hide ReadCount, Contents;
    SameMap(start, p, a, n);
  }

  lemma Streamed(data: seq<byte>, files: seq<TarFile>, start: map<nat, Handle>, p: nat, sizes: seq<nat>, i: nat,
                 got: seq<byte>, open: map<nat, Handle>, n: nat, before: seq<byte>, after: seq<byte>, 
                 open': map<nat, Handle>)
    requires i < |sizes| && HasStreamed(data, files, start, p, Sum(sizes[..i]), got, open)
    requires HasRead(data, files, open, p, sizes[i], n, before, after, open') && n <= |after|
    requires sizes[i] < 0x8000_0000
    ensures HasStreamed(data, files, start, p, Sum(sizes[..i + 1]), got + after[..n], open')
  {
    StreamParts(data, files, start, p, Sum(sizes[..i]), sizes[i], got, open, n, before, after, open');
    hide HasRead, Sum, Contents;
    var f, offset := files[start[p].file], start[p].offset;
    SumStep(offset, sizes, i, f.size);
    Joined(Contents(data, f), offset, Min(offset + Sum(sizes[..i]), f.size), n, got, before[n..], after);
  }

  lemma SameMap(open: map<nat, Handle>, p: nat, a: nat, n: nat)
    requires p in open
    ensures var next := open[p := open[p].(offset := a)];
      next[p := next[p].(offset := a + n)] == open[p := open[p].(offset := a + n)]
  {
  }

  lemma ReadDone(data: seq<byte>, files: seq<TarFile>, open: map<nat, Handle>, p: nat, bufsize: int, n: int,
                 before: seq<byte>, after: seq<byte>)
    requires p in open && open[p].file < |files| && |before| == |after|
    requires var f, offset := files[open[p].file], open[p].offset;
      && f.addr + f.size <= |data| && offset <= f.size
      && n == ReadCount(f.size - offset, bufsize) && 0 <= n <= f.size - offset && n <= |before|
      && after[..n] == data[f.addr + offset..f.addr + offset + n] && after[n..] == before[n..]
    ensures HasRead(data, files, open, p, bufsize, n, before, after, open[p := open[p].(offset := open[p].offset + n)])
  {
    hide ReadCount;
    TakeAndDrop(after, n);
    var f, offset := files[open[p].file], open[p].offset;
    PartOfPart(data, f.addr, f.size, offset, n);
  }

  lemma HandleIs(m: Bytes, live: Live, table: nat, open: map<nat, Handle>, files: seq<TarFile>, p: nat)
    requires HandlesValid(m, live, table, open, files) && p in open
    ensures p >= 8 && p - 8 in live && live[p - 8] >= SIZEOF_HANDLE + 8 && Inside(p, 8) && Inside(p + 8, 8)
    ensures Word(m, p) == table + SIZEOF_TAR_FILE * open[p].file && Word(m, p + 8) == open[p].offset
    ensures (Word(m, p) - table) / SIZEOF_TAR_FILE == open[p].file
    ensures open[p].file < |files| && open[p].offset <= files[open[p].file].size
  {
    HandleFields(m, live, table, p, open[p]);
    hide HandleAt, Word;
  }

  lemma HandleMoved(m: Bytes, n: Bytes, live: Live, table: nat, open: map<nat, Handle>, files: seq<TarFile>, p: nat,
                    offset: nat)
    requires HandlesValid(m, live, table, open, files) && p in open && p >= 8 && KeepsBlocks(m, n, live - {p - 8})
    requires Inside(p + 8, 8) && n == WriteWord(m, p + 8, offset) && offset < U64
    requires InFile(files, open, p, offset)
    ensures HandlesValid(n, live, table, MovedTo(open, p, offset), files)
  {
    hide HandleAt, KeepsBlocks, WriteWord;
    OffsetWritten(m, live, table, p, open[p], offset);
    var others := open - {p};
    HandlesKept(m, n, live, live - {p - 8}, live, table, others, files);
    var open' := open[p := open[p].(offset := offset)];
    forall q | q in open' ensures HandleAt(n, live, table, q, open'[q]) {
      if q != p {
        assert q in others && others[q] == open'[q];
      }
    }
  }

  lemma HandleFields(m: Bytes, live: Live, table: nat, p: nat, h: Handle)
    requires HandleAt(m, live, table, p, h)
    ensures p >= 8 && p - 8 in live && live[p - 8] >= SIZEOF_HANDLE + 8 && Inside(p, 8) && Inside(p + 8, 8)
    ensures Word(m, p) == table + SIZEOF_TAR_FILE * h.file && Word(m, p + 8) == h.offset
    ensures (Word(m, p) - table) / SIZEOF_TAR_FILE == h.file
  {
  }

  function Sum(bs: seq<nat>): nat {
    if bs == [] then 0 else Sum(bs[..|bs| - 1]) + bs[|bs| - 1]
  }

  // One more read.
  lemma SumStep(offset: nat, bs: seq<nat>, i: nat, size: nat)
    requires i < |bs| && offset <= size
    ensures var a := Min(offset + Sum(bs[..i]), size);
      Min(offset + Sum(bs[..i + 1]), size) == a + Min(bs[i], size - a)
  {
    assert bs[..i + 1][..i] == bs[..i];
  }
}
