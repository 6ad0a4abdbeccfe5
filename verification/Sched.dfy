/** Round-robin scheduling over a process table, with the context switch as pushes and pops. */
module Sched {
  import opened Machine
  import opened HeapMem
  import opened HeapBlocks
  import opened HeapSteps
  import opened Heap
  import opened Stacks

  const MAX_PROC: nat := 100
  const SIZEOF_PROC: nat := 32

  datatype ProcState = Ready | Running | Idle | Dead

  datatype Proc = Proc(rsp: nat, pid: nat, state: ProcState, stack: nat)

  /** Going round the table from cur to next, entry j is passed; all the others are if next is cur. */
  predicate Passed(cur: nat, next: nat, j: nat) {
    if next > cur then cur < j < next else j > cur || j < next
  }

  /** next is the first READY entry after cur in cyclic order, or cur itself if no other is READY. */
  ghost predicate IsNext(procs: seq<Proc>, cur: nat, next: nat) {
    && cur < |procs| && next < |procs|
    && (next != cur ==> procs[next].state.Ready?)
    && forall j :: 0 <= j < |procs| && Passed(cur, next, j) ==> !procs[j].state.Ready?
  }

  function After(i: nat, n: nat): nat
    requires i < n
  {
    if i + 1 == n then 0 else i + 1
  }

  lemma AfterIsMod(i: nat, n: nat)
    requires i < n
    ensures (i + 1) % n == After(i, n)
  {
  }

  /** schedule's search loop. */
  method FindNext(procs: seq<Proc>, cur: nat) returns (next: nat)
    requires cur < |procs|
    ensures IsNext(procs, cur, next)
  {
    AfterIsMod(cur, |procs|);
    next := (cur + 1) % |procs|;
    while !procs[next].state.Ready? && next != cur
      invariant next < |procs|
      invariant forall j :: 0 <= j < |procs| && Passed(cur, next, j) ==> !procs[j].state.Ready?
      decreases if next > cur then cur + |procs| - next else cur - next
    {
      AfterIsMod(next, |procs|);
      next := (next + 1) % |procs|;
    }
  }

  ghost predicate StatesValid(procs: seq<Proc>, current: nat) {
    forall i :: 0 <= i < |procs| ==> procs[i].pid == i && procs[i].state == if i == current then Running else Ready
  }

  /** The saved stack pointer of a process leads to its saved context. */
  ghost predicate FrameOn(m: Memory, rsp: nat, c: Context, k: Stack) {
    FrameIs(m, rsp, c) && OnStack(rsp, k) && rsp + 128 <= k.high
  }

  ghost predicate FramesValid(m: Memory, procs: seq<Proc>, stacks: seq<Stack>, saved: seq<Context>, current: nat) {
    && |stacks| == |procs| && |saved| == |procs|
    && forall i :: 0 <= i < |procs| && i != current ==> FrameOn(m, procs[i].rsp, saved[i], stacks[i])
  }

  /** Writes within the running process's own stack keep what all others saved. */
  lemma FramesKept(m: Memory, n: Memory, procs: seq<Proc>, stacks: seq<Stack>, saved: seq<Context>, current: nat,
                   live: Live)
    requires current < |stacks| && OnlyIn(m, n, stacks[current]) && StacksValid(stacks, live)
    requires FramesValid(m, procs, stacks, saved, current)
    ensures FramesValid(n, procs, stacks, saved, current)
  {
    StacksAre(stacks, live);
    hide FrameIs, OnlyIn, StacksValid, IsStack;
    forall i | 0 <= i < |procs| && i != current ensures FrameOn(n, procs[i].rsp, saved[i], stacks[i]) {
      assert FrameOn(m, procs[i].rsp, saved[i], stacks[i]);
      FrameKept(m, n, stacks[current], procs[i].rsp, saved[i], stacks[i]);
    }
  }

  /** So do heap calls. */
  lemma FramesKeptByHeap(m: Memory, n: Memory, procs: seq<Proc>, stacks: seq<Stack>, saved: seq<Context>, current: nat,
                         live: Live)
    requires n.boot == m.boot && KeepsBlocks(m.heap, n.heap, live) && StacksValid(stacks, live)
    requires FramesValid(m, procs, stacks, saved, current)
    ensures FramesValid(n, procs, stacks, saved, current)
  {
    StacksAre(stacks, live);
    hide FrameIs, KeepsBlocks, StacksValid, IsStack;
    forall i | 0 <= i < |procs| && i != current ensures FrameOn(n, procs[i].rsp, saved[i], stacks[i]) {
      assert FrameOn(m, procs[i].rsp, saved[i], stacks[i]);
      StackFrameKept(m, n, live, stacks[i], procs[i].rsp, saved[i]);
    }
  }

  /** When all other processes are READY, the next one is simply the one after. */
  lemma NextIsAfter(procs: seq<Proc>, current: nat, next: nat)
    requires StatesValid(procs, current) && IsNext(procs, current, next)
    ensures next == After(current, |procs|) && (next != current ==> procs[next].state.Ready?)
  {
    var a := After(current, |procs|);
    if next != a {
      assert Passed(current, next, a);
    }
  }

  lemma StatesSwitched(procs: seq<Proc>, prev: nat, next: nat, sp: nat)
    requires StatesValid(procs, prev) && prev < |procs| && next < |procs| && prev != next
    ensures StatesValid(Switched(procs, prev, next, sp), next)
  {
  }

  /** The table after a switch that left the old process's stack pointer at sp. */
  function Switched(procs: seq<Proc>, prev: nat, next: nat, sp: nat): seq<Proc>
    requires prev < |procs| && next < |procs| && prev != next
  {
    procs[prev := procs[prev].(state := Ready, rsp := sp)][next := procs[next].(state := Running)]
  }

  lemma FramesSwitched(m: Memory, n: Memory, procs: seq<Proc>, stacks: seq<Stack>, saved: seq<Context>,
                       prev: nat, next: nat, sp: nat, c: Context, live: Live)
    requires prev < |procs| && next < |procs| && prev != next
    requires StacksValid(stacks, live) && FramesValid(m, procs, stacks, saved, prev)
    requires OnlyIn(m, n, stacks[prev]) && FrameOn(n, sp, c, stacks[prev])
    ensures FramesValid(n, Switched(procs, prev, next, sp), stacks, saved[prev := c], next)
  {
    hide FrameOn, OnlyIn, StacksValid;
    FramesKept(m, n, procs, stacks, saved, prev, live);
  }

  /** The next process's frame, where to find it, and how it lies to the running one's stack. */
  lemma NextFrame(m: Memory, procs: seq<Proc>, stacks: seq<Stack>, saved: seq<Context>, prev: nat, next: nat,
                  live: Live)
    requires prev < |procs| && next < |procs| && prev != next
    requires StacksValid(stacks, live) && FramesValid(m, procs, stacks, saved, prev)
    ensures FrameOn(m, procs[next].rsp, saved[next], stacks[next]) && stacks[next].Apart(stacks[prev])
    ensures IsStack(stacks[prev], live) && OnStack(saved[next].rsp, stacks[next])
  {
    hide IsStack;
    StacksAre(stacks, live);
    hide StacksValid, FiveAt, Look;
    assert FrameOn(m, procs[next].rsp, saved[next], stacks[next]);
  }

  /** What scheduling promises about: who runs, what the processor holds, and what everyone else saved. */
  datatype Snapshot = Snapshot(current: nat, running: Context, saved: seq<Context>) {
    predicate Ok() {
      current < |saved| <= MAX_PROC
    }
  }

  /** What can happen: proc_create, schedule, or some computation of the running process. */
  datatype Event = Created(start: Context) | Scheduled | Ran(after: Context)

  function Do(v: Snapshot, e: Event): (w: Snapshot)
    requires v.Ok()
    ensures w.Ok()
  {
    match e
    case Created(start) => if |v.saved| == MAX_PROC then v else v.(saved := v.saved + [start])
    case Scheduled =>
      var next := After(v.current, |v.saved|);
      if next == v.current then v else Snapshot(next, v.saved[next], v.saved[v.current := v.running])
    case Ran(after) => v.(running := after)
  }

  lemma StatesAdded(procs: seq<Proc>, current: nat, p: Proc)
    requires StatesValid(procs, current) && current < |procs| && p.pid == |procs| && p.state.Ready?
    ensures StatesValid(procs + [p], current)
  {
  }

  lemma FramesAdded(m: Memory, n: Memory, procs: seq<Proc>, stacks: seq<Stack>, saved: seq<Context>, current: nat,
                    live: Live,
                    p: Proc, k: Stack, c: Context)
    requires current < |procs| && FramesValid(m, procs, stacks, saved, current) && StacksValid(stacks + [k], live)
    requires OnlyIn(m, n, k) && FrameOn(n, p.rsp, c, k)
    ensures FramesValid(n, procs + [p], stacks + [k], saved + [c], current)
  {
    AllApart(stacks, k, live);
    hide FrameIs, OnlyIn, StacksValid;
    forall i | 0 <= i < |procs| && i != current ensures FrameOn(n, procs[i].rsp, saved[i], stacks[i]) {
      assert FrameOn(m, procs[i].rsp, saved[i], stacks[i]);
      FrameKept(m, n, k, procs[i].rsp, saved[i], stacks[i]);
    }
  }

  lemma AllApart(stacks: seq<Stack>, k: Stack, live: Live)
    requires StacksValid(stacks + [k], live)
    ensures forall i :: 0 <= i < |stacks| ==> stacks[i].Apart(k)
  {
    var all := stacks + [k];
    hide IsBoot, IsBlock;
    forall i | 0 <= i < |stacks| ensures stacks[i].Apart(k) {
      assert all[i].Apart(all[|stacks|]);
    }
  }

  class Kernel {
    const heap: KernelHeap
    const table: array<Proc>
    // The table's address, and the pointer into it.
    const tableAt: nat
    var procCount: nat
    var currentProc: nat
    // The entry pointed to.
    ghost var current: nat
    // The processor.
    var regs: Regs
    var rsp: nat
    var rip: u64
    // The words of the boot stack; the other stacks are in the heap.
    var boot: map<nat, nat>
    // Where each process's stack is, and what each process that is not running left there.
    ghost var stacks: seq<Stack>
    ghost var saved: seq<Context>

    ghost function Mem(): Memory
      reads this, heap
    {
      Memory(heap.mem, boot)
    }

    ghost function Now(): Context
      reads this
    {
      Context(regs, rsp, rip)
    }

    ghost function View(): Snapshot
      reads this
    {
      Snapshot(current, Now(), saved)
    }

    /** One process RUNNING, the current one; all others READY, each with its context saved on a stack of its own. */
    ghost predicate Valid()
      reads this, heap, table
    {
      && table.Length == MAX_PROC && 1 <= procCount <= MAX_PROC && current < procCount
      && currentProc == tableAt + SIZEOF_PROC * current
      && |stacks| == procCount
      && StatesValid(table[..procCount], current)
      && StacksValid(stacks, heap.live)
      && FramesValid(Mem(), table[..procCount], stacks, saved, current)
      && OnStack(rsp, stacks[current])
      && heap.Valid()
    }

    /** proc_init: a table holding the idle process, which runs on the boot stack. */
    constructor (h: KernelHeap, address: nat, k: Stack, sp: nat)
      requires h.Valid() && OnStack(sp, k) && IsBoot(k)
      ensures Valid() && heap == h && fresh(table) && procCount == 1 && current == 0 && stacks == [k] && rsp == sp
    {
      heap := h;
      table := new Proc[MAX_PROC](_ => Proc(0, 0, Ready, 0));
      tableAt, currentProc := address, address;
      procCount, current := 1, 0;
      regs, rsp, rip := ZERO_REGS, sp, 0;
      boot := map[];
      stacks := [k];
      saved := [Context(ZERO_REGS, 0, 0)];
      new;
      table[0] := Proc(0, 0, Running, 0);
    }

    // A 64-bit store to a word of stack k.
    method Store(a: nat, v: u64, ghost k: Stack)
      requires heap.Valid() && IsStack(k, heap.live) && k.low <= a && a + 8 <= k.high
      modifies this`boot, heap`mem
      ensures heap.Valid() && Look(Mem(), a) == v && OnlyIn(old(Mem()), Mem(), Stack(a, a + 8))
    {
      ghost var m := Mem();
      InsideIsBlock(k, heap.live, a);
      if Inside(a, 8) {
        heap.Fill(k.low - 8, a, ToBytes(8, v));
      } else {
        boot := boot[a := v];
      }
      Stored(m, Mem(), a, v);
    }

    method Load(a: nat) returns (v: nat)
      ensures v == Look(Mem(), a)
    {
      if Inside(a, 8) {
        v := heap.Load(a);
      } else {
        v := if a in boot then boot[a] else 0;
      }
    }

    method Push(v: u64, ghost k: Stack)
      requires heap.Valid() && IsStack(k, heap.live) && k.low + 8 <= rsp <= k.high
      modifies this`rsp, this`boot, heap`mem
      ensures heap.Valid() && rsp == old(rsp) - 8
      ensures Look(Mem(), rsp) == v && OnlyIn(old(Mem()), Mem(), Stack(rsp, rsp + 8))
    {
      hide IsStack, OnlyIn, Look, KernelHeap.Valid;
      rsp := rsp - 8;
      Store(rsp, v, k);
    }

    method Pop() returns (v: nat)
      modifies this`rsp
      ensures v == Look(Mem(), old(rsp)) && rsp == old(rsp) + 8
    {
      hide Look;
      v := Load(rsp);
      rsp := rsp + 8;
    }

    // Five pushes in a row; the last one pushed ends lowest.
    method PushFive(a: u64, b: u64, c: u64, d: u64, e: u64, ghost k: Stack)
      requires heap.Valid() && IsStack(k, heap.live) && k.low + 40 <= rsp <= k.high
      modifies this`rsp, this`boot, heap`mem
      ensures heap.Valid() && rsp == old(rsp) - 40
      ensures FiveAt(Mem(), rsp, e, d, c, b, a) && OnlyIn(old(Mem()), Mem(), Stack(rsp, rsp + 40))
    {
      hide IsStack, Look, KernelHeap.Valid;
      Push(a, k);
      Push(b, k);
      Push(c, k);
      Push(d, k);
      Push(e, k);
    }

    method PopFive() returns (a: nat, b: nat, c: nat, d: nat, e: nat)
      modifies this`rsp
      ensures FiveAt(Mem(), old(rsp), a, b, c, d, e) && rsp == old(rsp) + 40
    {
      hide Look;
      a := Pop();
      b := Pop();
      c := Pop();
      d := Pop();
      e := Pop();
    }

    // The first half of a switch: the call's return address, then all registers, r15 first.
    method SaveContext(ghost k: Stack)
      requires heap.Valid() && IsStack(k, heap.live) && k.low + 128 <= rsp <= k.high
      modifies this`rsp, this`boot, heap`mem
      ensures heap.Valid() && rsp == old(rsp) - 128
      ensures FrameIs(Mem(), rsp, old(Now())) && OnlyIn(old(Mem()), Mem(), k)
    {
      hide IsStack, Look, KernelHeap.Valid;
      ghost var m := Mem();
      Push(rip, k);
      ghost var m0 := Mem();
      PushFive(regs.r15, regs.r14, regs.r13, regs.r12, regs.r11, k);
      ghost var m1 := Mem();
      PushFive(regs.r10, regs.r9, regs.r8, regs.rbp, regs.rdi, k);
      ghost var m2 := Mem();
      PushFive(regs.rsi, regs.rdx, regs.rcx, regs.rbx, regs.rax, k);
    }

    // The second half: pop them in the opposite order, and return.
    method LoadContext(ghost c: Context)
      requires FrameIs(Mem(), rsp, c)
      modifies this`rsp, this`regs, this`rip
      ensures Now() == c
    {
      hide Look;
      var rax, rbx, rcx, rdx, rsi := PopFive();
      var rdi, rbp, r8, r9, r10 := PopFive();
      var r11, r12, r13, r14, r15 := PopFive();
      regs := Regs(rax, rbx, rcx, rdx, rsi, rdi, rbp, r8, r9, r10, r11, r12, r13, r14, r15);
      rip := Pop();
    }

    /** proc_switch_x64: save on the old stack, record where, and load from the new one. */
    method ProcSwitch(prev: nat, newRsp: nat, ghost k: Stack, ghost own: Stack, ghost c: Context)
      requires heap.Valid() && IsStack(k, heap.live) && k.low + 128 <= rsp && OnStack(rsp, k) && prev < table.Length
      requires FrameOn(Mem(), newRsp, c, own) && own.Apart(k)
      modifies this`rsp, this`regs, this`rip, this`boot, heap`mem, table
      ensures heap.Valid() && table[..] == old(table[..][prev := table[prev].(rsp := rsp - 128)])
      ensures FrameOn(Mem(), old(rsp) - 128, old(Now()), k) && OnlyIn(old(Mem()), Mem(), k)
      ensures Now() == c
    {
      hide IsStack, OnlyIn, FrameIs, KernelHeap.Valid;
      ghost var m := Mem();
      SaveContext(k);
      table[prev] := table[prev].(rsp := rsp);
      rsp := newRsp;
      FrameKept(m, Mem(), k, newRsp, c, own);
      LoadContext(c);
    }

    /** schedule's first loop: the index of the entry that current_proc points to, -1 if it points to none. */
    method FindCurrent() returns (index: int)
      requires procCount <= MAX_PROC
      ensures -1 <= index < procCount && (index >= 0 ==> tableAt + SIZEOF_PROC * index == currentProc)
      ensures index == -1 <==> forall i: nat :: i < procCount ==> tableAt + SIZEOF_PROC * i != currentProc
    {
      for i := 0 to procCount
        invariant forall j: nat :: j < i ==> tableAt + SIZEOF_PROC * j != currentProc
      {
        if tableAt + SIZEOF_PROC * i == currentProc {
          return i;
        }
      }
      return -1;
    }

    /** schedule: hand the processor to the next READY process. */
    method Schedule()
      requires Valid() && stacks[current].low + 128 <= rsp
      modifies this, table, heap`mem
      ensures Valid() && procCount == old(procCount) && stacks == old(stacks)
      ensures old(View()).Ok() && View() == Do(old(View()), Scheduled)
    {
      assert View().Ok();
      hide StatesValid, StacksValid, FramesValid, OnStack, KernelHeap.Valid, IsNext;
      var index := FindCurrent();
      assert index == current;
      var next := FindNext(table[..procCount], index);
      NextIsAfter(table[..procCount], index, next);
      if next == index {
        return;
      }
      if !table[next].state.Ready? {
        assert false;
      }
      Switch(index, next);
    }

    // The second half of schedule, with the context switch it makes.
    method Switch(prev: nat, next: nat)
      requires Valid() && stacks[current].low + 128 <= rsp && prev == current && next < procCount && next != current
      modifies this, table, heap`mem
      ensures Valid() && procCount == old(procCount) && stacks == old(stacks) && current == next
      ensures saved == old(saved[current := Now()]) && Now() == old(saved)[next]
    {
      hide StatesValid, StacksValid, OnStack, KernelHeap.Valid, IsStack, OnlyIn, FrameOn;
      ghost var procs, m, c, sp := table[..procCount], Mem(), Now(), rsp - 128;
      NextFrame(m, procs, stacks, saved, prev, next, heap.live);
      table[prev] := table[prev].(state := Ready);
      table[next] := table[next].(state := Running);
      currentProc, current := tableAt + SIZEOF_PROC * next, next;
      ProcSwitch(prev, table[next].rsp, stacks[prev], stacks[next], saved[next]);
      assert table[..procCount] == Switched(procs, prev, next, sp);
      StatesSwitched(procs, prev, next, sp);
      FramesSwitched(m, Mem(), procs, stacks, saved, prev, next, sp, c, heap.live);
      saved := saved[prev := c];
    }

    /** The running process computes: it sets its registers and stack pointer, and writes a word of its own stack. */
    method Compute(c: Context, a: nat, v: u64)
      requires Valid() && OnStack(c.rsp, stacks[current]) && stacks[current].low <= a && a + 8 <= stacks[current].high
      modifies this`regs, this`rsp, this`rip, this`boot, heap`mem
      ensures Valid() && Look(Mem(), a) == v
      ensures old(View()).Ok() && View() == Do(old(View()), Ran(c))
    {
      assert View().Ok();
      StacksAre(stacks, heap.live);
      hide StatesValid, StacksValid, FramesValid, OnStack, KernelHeap.Valid, Look, IsStack;
      ghost var m := Mem();
      Store(a, v, stacks[current]);
      FramesKept(m, Mem(), table[..procCount], stacks, saved, current, heap.live);
      regs, rsp, rip := c.regs, c.rsp, c.rip;
    }

    /** The running process allocates heap memory. */
    method Allocate(size: nat) returns (ptr: nat)
      requires Valid() && size < U64
      modifies heap
      ensures Valid()
    {
      hide StatesValid, StacksValid, FramesValid, OnStack, HeapIs, Granted, KeepsBlocks;
      ghost var m, live := Mem(), heap.live;
      ptr := heap.Kmalloc(size);
      if ptr != 0 {
        StackGranted(stacks, heap.mem, heap.freeListHead, heap.free, live, heap.live, ptr, Rounded(size));
      }
      FramesKeptByHeap(m, Mem(), table[..procCount], stacks, saved, current, live);
    }

    /** The running process frees heap memory that is nobody's stack. */
    method Release(ptr: nat)
      requires Valid() && (ptr == 0 || (ptr >= 8 && ptr - 8 in heap.live))
      requires forall i :: 0 <= i < |stacks| ==> stacks[i].low != ptr
      modifies heap
      ensures Valid()
    {
      hide StatesValid, FramesValid, OnStack, HeapIs, KeepsBlocks;
      ghost var m := Mem();
      var panicked := heap.Kfree(ptr);
      if ptr != 0 {
        StacksRemain(stacks, old(heap.live), ptr - 8);
      }
      hide StacksValid;
      FramesKeptByHeap(m, Mem(), table[..procCount], stacks, saved, current, heap.live);
    }

    // Lower the stack pointer of entry i and store a word there.
    method PutWord(i: nat, v: u64, ghost k: Stack)
      requires heap.Valid() && IsStack(k, heap.live) && i < table.Length && k.low + 8 <= table[i].rsp <= k.high
      modifies table, this`boot, heap`mem
      ensures heap.Valid() && table[..] == old(table[..][i := table[i].(rsp := table[i].rsp - 8)])
      ensures Look(Mem(), table[i].rsp) == v && OnlyIn(old(Mem()), Mem(), Stack(table[i].rsp, table[i].rsp + 8))
    {
      hide IsStack, OnlyIn, Look, KernelHeap.Valid;
      table[i] := table[i].(rsp := table[i].rsp - 8);
      Store(table[i].rsp, v, k);
    }

    method PutFiveZeros(i: nat, ghost k: Stack)
      requires heap.Valid() && IsStack(k, heap.live) && i < table.Length && k.low + 40 <= table[i].rsp <= k.high
      modifies table, this`boot, heap`mem
      ensures heap.Valid() && table[..] == old(table[..][i := table[i].(rsp := table[i].rsp - 40)])
      ensures FiveAt(Mem(), table[i].rsp, 0, 0, 0, 0, 0)
      ensures OnlyIn(old(Mem()), Mem(), Stack(table[i].rsp, table[i].rsp + 40))
    {
      hide IsStack, Look, KernelHeap.Valid;
      PutWord(i, 0, k);
      PutWord(i, 0, k);
      PutWord(i, 0, k);
      PutWord(i, 0, k);
      PutWord(i, 0, k);
    }

    // The first frame of a process: its entry point, and zeros for all registers.
    method PutFrame(i: nat, entry: u64, ghost k: Stack)
      requires heap.Valid() && IsStack(k, heap.live) && i < table.Length && k.low + 128 <= table[i].rsp == k.high
      modifies table, this`boot, heap`mem
      ensures heap.Valid() && table[..] == old(table[..][i := table[i].(rsp := table[i].rsp - 128)])
      ensures FrameIs(Mem(), table[i].rsp, Context(ZERO_REGS, k.high, entry)) && OnlyIn(old(Mem()), Mem(), k)
    {
      hide IsStack, Look, KernelHeap.Valid;
      PutWord(i, entry, k);
      PutFiveZeros(i, k);
      PutFiveZeros(i, k);
      PutFiveZeros(i, k);
    }

    // The stack for one more process.
    method NewStack() returns (ptr: nat)
      requires Valid() && exists x :: FreeRun(heap.live, x, Rounded(STACK_SIZE))
      modifies heap
      ensures Valid() && StacksValid(stacks + [Stack(ptr, ptr + STACK_SIZE)], heap.live) && ptr % 8 == 0
    {
      hide StatesValid, StacksValid, FramesValid, OnStack, HeapIs, Granted, KeepsBlocks, FreeRun;
      ghost var m, live := Mem(), heap.live;
      ptr := heap.Kmalloc(STACK_SIZE);
      StackGranted(stacks, heap.mem, heap.freeListHead, heap.free, live, heap.live, ptr, Rounded(STACK_SIZE));
      FramesKeptByHeap(m, Mem(), table[..procCount], stacks, saved, current, live);
    }

    /** proc_create: one more READY process, to start at entry with all registers zero, on a new stack. */
    method ProcCreate(entry: u64)
      requires Valid()
      requires procCount < MAX_PROC ==> exists x :: FreeRun(heap.live, x, Rounded(STACK_SIZE))
      modifies this`procCount, this`boot, this`stacks, this`saved, table, heap
      ensures Valid() && old(View()).Ok()
      ensures old(procCount) == 100 ==> procCount == 100 && stacks == old(stacks) && View() == old(View())
      ensures old(procCount) < 100 ==>
                && procCount == old(procCount) + 1 && stacks == old(stacks) + [stacks[old(procCount)]]
                && stacks[old(procCount)].high == stacks[old(procCount)].low + 4096
                && View() == Do(old(View()), Created(Context(ZERO_REGS, stacks[old(procCount)].high, entry)))
    {
      assert View().Ok() && |saved| == procCount;
      hide StatesValid, StacksValid, FramesValid, HeapIs, FreeRun, FrameIs, IsStack, OnlyIn;
      if procCount >= MAX_PROC {
        return;
      }
      var ptr := NewStack();
      AddProc(ptr, entry);
    }

    // The second half of proc_create, with the stack allocated.
    method AddProc(ptr: nat, entry: u64)
      requires Valid() && procCount < MAX_PROC && ptr % 8 == 0
      requires StacksValid(stacks + [Stack(ptr, ptr + STACK_SIZE)], heap.live)
      modifies this`procCount, this`boot, this`stacks, this`saved, table, heap`mem
      ensures Valid() && procCount == old(procCount) + 1
      ensures stacks == old(stacks) + [Stack(ptr, ptr + STACK_SIZE)]
      ensures saved == old(saved) + [Context(ZERO_REGS, ptr + STACK_SIZE, entry)]
    {
      hide StatesValid, StacksValid, FramesValid, HeapIs, FrameIs, IsStack, OnlyIn;
      var i := procCount;
      ghost var procs, m, k := table[..i], Mem(), Stack(ptr, ptr + STACK_SIZE);
      StacksAre(stacks + [k], heap.live);
      assert (stacks + [k])[i] == k;
      table[i] := Proc(ptr + STACK_SIZE, i, Ready, ptr);
      PutFrame(i, entry, k);
      assert table[..i] == procs && table[..i + 1] == procs + [table[i]];
      StatesAdded(procs, current, table[i]);
      FramesAdded(m, Mem(), procs, stacks, saved, current, heap.live, table[i], k, Context(ZERO_REGS, k.high, entry));
      procCount := procCount + 1;
      stacks, saved := stacks + [k], saved + [Context(ZERO_REGS, k.high, entry)];
    }
  }
}
