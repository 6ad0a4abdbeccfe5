/** Contexts saved on stacks, over the memory that stacks live in. */
module Stacks {
  import opened Machine
  import opened HeapMem
  import opened HeapSpec
  import opened HeapBlocks
  import opened HeapSteps
  import opened Heap

  const STACK_SIZE: nat := 4096

  type u64 = n: nat | n < U64

  /** The fifteen registers a switch saves. */
  datatype Regs = Regs(rax: u64, rbx: u64, rcx: u64, rdx: u64, rsi: u64, rdi: u64, rbp: u64, r8: u64,
                       r9: u64, r10: u64, r11: u64, r12: u64, r13: u64, r14: u64, r15: u64)

  const ZERO_REGS := Regs(0, 0, 0, 0, 0, 0, 0, 0, 0, 0, 0, 0, 0, 0, 0)

  /** All of a process that a switch must keep: its registers, stack pointer and place in the code. */
  datatype Context = Context(regs: Regs, rsp: nat, rip: u64)

  /** The bytes of the heap, which holds all stacks but the first, and the words of the boot stack. */
  datatype Memory = Memory(heap: Bytes, boot: map<nat, nat>)

  function Look(m: Memory, a: nat): nat {
    if Inside(a, 8) then Word(m.heap, a) else if a in m.boot then m.boot[a] else 0
  }

  /** Five consecutive words from a on. */
  predicate FiveAt(m: Memory, a: nat, v0: nat, v1: nat, v2: nat, v3: nat, v4: nat) {
    && Look(m, a) == v0 && Look(m, a + 8) == v1 && Look(m, a + 16) == v2
    && Look(m, a + 24) == v3 && Look(m, a + 32) == v4
  }

  /** The words above rsp are a saved context: rax lowest, then the others, then the return address. */
  predicate FrameIs(m: Memory, rsp: nat, c: Context) {
    && c.rsp == rsp + 128
    && FiveAt(m, rsp, c.regs.rax, c.regs.rbx, c.regs.rcx, c.regs.rdx, c.regs.rsi)
    && FiveAt(m, rsp + 40, c.regs.rdi, c.regs.rbp, c.regs.r8, c.regs.r9, c.regs.r10)
    && FiveAt(m, rsp + 80, c.regs.r11, c.regs.r12, c.regs.r13, c.regs.r14, c.regs.r15)
    && Look(m, rsp + 120) == c.rip
  }

  datatype Stack = Stack(low: nat, high: nat) {
    predicate Apart(other: Stack) {
      high <= other.low || other.high <= low
    }
  }

  /** A stack pointer into stack k. */
  predicate OnStack(sp: nat, k: Stack) {
    k.low <= sp <= k.high && sp % 8 == 0
  }

  predicate IsBoot(k: Stack) {
    k.high <= HEAP_START || HEAP_END <= k.low
  }

  /** The payload of a live heap block that is large enough. */
  predicate IsBlock(k: Stack, live: Live) {
    k.low >= 8 && k.low - 8 in live && live[k.low - 8] >= STACK_SIZE + 8 && k.high == k.low + STACK_SIZE
  }

  predicate IsStack(k: Stack, live: Live) {
    IsBoot(k) || IsBlock(k, live)
  }

  /** Every word not overlapping stack k is the same in both memories. */
  ghost predicate OnlyIn(m: Memory, n: Memory, k: Stack) {
    forall a: nat :: a + 8 <= k.low || k.high <= a ==> Look(n, a) == Look(m, a)
  }

  /** Writing only within one stack leaves a frame on another stack as it is. */
  lemma FrameKept(m: Memory, n: Memory, k: Stack, rsp: nat, c: Context, own: Stack)
    requires OnlyIn(m, n, k) && FrameIs(m, rsp, c) && own.low <= rsp && rsp + 128 <= own.high && own.Apart(k)
    ensures FrameIs(n, rsp, c)
  {
    hide Look;
  }

  /** A store in the heap or on the boot stack changes the word it names and no word apart from it. */
  lemma Stored(m: Memory, n: Memory, a: nat, v: u64)
    requires n == if Inside(a, 8) then m.(heap := WriteWord(m.heap, a, v)) else m.(boot := m.boot[a := v])
    ensures Look(n, a) == v && OnlyIn(m, n, Stack(a, a + 8))
  {
    hide WriteWord, Word;
    if Inside(a, 8) {
      ReadBack(m.heap, a, v);
      forall b: nat | b + 8 <= a || a + 8 <= b ensures Look(n, b) == Look(m, b) {
        if Inside(b, 8) {
          WordElsewhere(m.heap, a, v, b, 8);
        }
      }
    }
  }

  lemma InsideIsBlock(k: Stack, live: Live, a: nat)
    requires IsStack(k, live) && k.low <= a && a + 8 <= k.high
    ensures Inside(a, 8) ==> IsBlock(k, live) && a + 8 <= k.low - 8 + live[k.low - 8]
  {
  }

  /** Heap calls that keep a stack's block keep every word of the stack. */
  lemma StackWordKept(m: Memory, n: Memory, live: Live, k: Stack, a: nat)
    requires n.boot == m.boot && KeepsBlocks(m.heap, n.heap, live) && IsStack(k, live) && k.low <= a && a + 8 <= k.high
    ensures Look(n, a) == Look(m, a)
  {
    hide Word, Slice;
    if Inside(a, 8) {
      WordOfBlock(m.heap, n.heap, k.low - 8, live[k.low - 8], a);
    }
  }

  lemma StackFrameKept(m: Memory, n: Memory, live: Live, k: Stack, rsp: nat, c: Context)
    requires n.boot == m.boot && KeepsBlocks(m.heap, n.heap, live) && IsStack(k, live) && k.low <= rsp
      && rsp + 128 <= k.high
    requires FrameIs(m, rsp, c)
    ensures FrameIs(n, rsp, c)
  {
    hide Look, KeepsBlocks;
    FiveKept(m, n, live, k, rsp);
    FiveKept(m, n, live, k, rsp + 40);
    FiveKept(m, n, live, k, rsp + 80);
    StackWordKept(m, n, live, k, rsp + 120);
  }

  lemma FiveKept(m: Memory, n: Memory, live: Live, k: Stack, a: nat)
    requires n.boot == m.boot && KeepsBlocks(m.heap, n.heap, live) && IsStack(k, live) && k.low <= a && a + 40 <= k.high
    ensures FiveAt(n, a, Look(m, a), Look(m, a + 8), Look(m, a + 16), Look(m, a + 24), Look(m, a + 32))
  {
    hide Look, KeepsBlocks;
    StackWordKept(m, n, live, k, a);
    StackWordKept(m, n, live, k, a + 8);
    StackWordKept(m, n, live, k, a + 16);
    StackWordKept(m, n, live, k, a + 24);
    StackWordKept(m, n, live, k, a + 32);
  }

  /** Stacks are pairwise apart: the first is the boot stack outside the heap, the others are live heap blocks. */
  ghost predicate StacksValid(stacks: seq<Stack>, live: Live) {
    && (forall i :: 0 <= i < |stacks| ==> if i == 0 then IsBoot(stacks[i]) else IsBlock(stacks[i], live))
    && (forall i, j :: 0 <= i < j < |stacks| ==> stacks[i].Apart(stacks[j]))
  }

  lemma StacksAre(stacks: seq<Stack>, live: Live)
    requires StacksValid(stacks, live)
    ensures forall i :: 0 <= i < |stacks| ==> IsStack(stacks[i], live)
    ensures forall i, j :: 0 <= i < |stacks| && 0 <= j < |stacks| && i != j ==> stacks[i].Apart(stacks[j])
  {
  }

  // A newly granted block overlaps no block that was live.
  lemma GrantedApart(live: Live, live': Live, ptr: nat, n: nat, k: Stack)
    requires Granted(live, live', ptr, n) && LiveSound(live') && n >= STACK_SIZE + 8 && IsStack(k, live)
    ensures IsBlock(Stack(ptr, ptr + STACK_SIZE), live') && k.Apart(Stack(ptr, ptr + STACK_SIZE))
  {
    hide FreeRun;
    assert Block(ptr - 8, n).Sound() by { assert ptr - 8 in live'; }
    if IsBlock(k, live) {
      assert k.low - 8 in live' && k.low != ptr;
    }
  }

  lemma StacksStay(stacks: seq<Stack>, live: Live, live': Live, ptr: nat, n: nat)
    requires StacksValid(stacks, live) && Granted(live, live', ptr, n)
    ensures StacksValid(stacks, live')
  {
    hide FreeRun;
  }

  lemma LiveAligned(live: Live, ptr: nat)
    requires LiveSound(live) && ptr >= 8 && ptr - 8 in live
    ensures ptr % 8 == 0
  {
    assert Block(ptr - 8, live[ptr - 8]).Sound();
    hide LiveSound;
    PayloadAligned(ptr - 8);
  }

  lemma PayloadAligned(a: nat)
    requires a % HEAP_ALIGNMENT == 0
    ensures (a + 8) % 8 == 0
  {
    var q := a / HEAP_ALIGNMENT;
    assert a + 8 == 8 * (2 * q + 1);
  }

  /** Allocation keeps all stacks, and a block it grants is a stack apart from them. */
  lemma StackGranted(stacks: seq<Stack>, m: Bytes, head: nat, fl: seq<Block>, live: Live, live': Live, ptr: nat, n: nat)
    requires StacksValid(stacks, live) && Granted(live, live', ptr, n) && HeapIs(m, head, fl, live')
    ensures StacksValid(stacks, live')
    ensures n >= STACK_SIZE + 8 && |stacks| > 0 ==> StacksValid(stacks + [Stack(ptr, ptr + STACK_SIZE)], live')
    ensures ptr % 8 == 0
  {
    hide Headers, Linked, Granted, Tiled, Gapped, LiveSound, IsBlock, IsBoot, StacksValid, IsStack;
    GrantedIn(live, live', ptr, n);
    LiveAligned(live', ptr);
    StacksStay(stacks, live, live', ptr, n);
    if n >= STACK_SIZE + 8 && |stacks| > 0 {
      StacksAre(stacks, live);
      var k := Stack(ptr, ptr + STACK_SIZE);
      GrantedApart(live, live', ptr, n, stacks[0]);
      forall i | 0 <= i < |stacks| ensures IsBlock(k, live') && stacks[i].Apart(k) {
        GrantedApart(live, live', ptr, n, stacks[i]);
      }
      StacksAdd(stacks, k, live');
    }
  }

  lemma GrantedIn(live: Live, live': Live, ptr: nat, n: nat)
    requires Granted(live, live', ptr, n)
    ensures ptr >= 8 && ptr - 8 in live'
  {
    hide FreeRun;
  }

  lemma StacksAdd(stacks: seq<Stack>, k: Stack, live: Live)
    requires StacksValid(stacks, live) && |stacks| > 0 && IsBlock(k, live)
    requires forall i :: 0 <= i < |stacks| ==> stacks[i].Apart(k)
    ensures StacksValid(stacks + [k], live)
  {
    hide IsBlock, IsBoot;
    var all := stacks + [k];
    forall i, j | 0 <= i < j < |all| ensures all[i].Apart(all[j]) {
      assert all[i] == stacks[i];
    }
  }

  /** Freeing a block that is no stack keeps all stacks. */
  lemma StacksRemain(stacks: seq<Stack>, live: Live, a: nat)
    requires StacksValid(stacks, live) && forall i :: 0 <= i < |stacks| ==> stacks[i].low != a + 8
    ensures StacksValid(stacks, live - {a})
  {
  }
}
