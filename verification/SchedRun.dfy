/** Runs of the scheduler: every process gets its turn, and finds its registers as it left them. */
module SchedRun {
  import opened Stacks
  import opened Sched

  function Run(v: Snapshot, es: seq<Event>): (w: Snapshot)
    requires v.Ok()
    ensures w.Ok()
    decreases |es|
  {
    if es == [] then v else Run(Do(v, es[0]), es[1..])
  }

  /** How many calls of schedule a run makes. */
  function Turns(es: seq<Event>): nat {
    if es == [] then 0 else (if es[0].Scheduled? then 1 else 0) + Turns(es[1..])
  }

  /** The most turns process j can be away from running, whatever is created meanwhile. */
  function Wait(v: Snapshot, j: nat): (n: int) {
    if j >= v.current then j - v.current else MAX_PROC - v.current + j
  }

  lemma WaitShrinks(v: Snapshot, e: Event, j: nat)
    requires v.Ok() && j < |v.saved| && j != v.current
    ensures 0 <= Wait(Do(v, e), j) <= Wait(v, j) - (if e.Scheduled? then 1 else 0) && j < |Do(v, e).saved|
  {
  }

  lemma TakeNext(es: seq<Event>, k: nat)
    requires k < |es|
    ensures es[..k + 1][0] == es[0] && es[..k + 1][1..] == es[1..][..k]
  {
  }

  // After the first k events of the rest is after the first k + 1 of all.
  lemma RunTail(v: Snapshot, es: seq<Event>, k: nat)
    requires v.Ok() && k < |es|
    ensures Run(v, es[..k + 1]) == Run(Do(v, es[0]), es[1..][..k])
    ensures Turns(es[..k + 1]) == (if es[0].Scheduled? then 1 else 0) + Turns(es[1..][..k])
  {
    TakeNext(es, k);
    hide Do;
  }

  lemma {:induction false} TurnComes(v: Snapshot, es: seq<Event>, j: nat) returns (k: nat)
    requires v.Ok() && j < |v.saved| && Turns(es) >= Wait(v, j)
    ensures k <= |es| && Run(v, es[..k]).current == j && Turns(es[..k]) <= Wait(v, j)
    decreases |es|
  {
    if v.current == j {
      k := 0;
    } else {
      WaitShrinks(v, es[0], j);
      k := TurnComes(Do(v, es[0]), es[1..], j);
      RunTail(v, es, k);
      k := k + 1;
    }
  }

  /** Round-robin fairness: in any run with enough calls of schedule, and any creations and computations in
      between, every process that is there at the start runs within 99 of them. */
  lemma Fairness(v: Snapshot, es: seq<Event>, j: nat)
    requires v.Ok() && j < |v.saved| && Turns(es) >= 99
    ensures exists k: nat :: k <= |es| && Run(v, es[..k]).current == j && Turns(es[..k]) <= 99
  {
    var k := TurnComes(v, es, j);
  }

  /** Process j is not running at any time before the end of the run. */
  ghost predicate Away(v: Snapshot, es: seq<Event>, j: nat)
    requires v.Ok()
  {
    forall k: nat :: k < |es| ==> Run(v, es[..k]).current != j
  }

  lemma AwayTail(v: Snapshot, es: seq<Event>, j: nat)
    requires v.Ok() && es != [] && Away(v, es, j)
    ensures v.current != j && Away(Do(v, es[0]), es[1..], j)
  {
    assert Run(v, es[..0]).current != j;
    hide Do;
    forall k: nat | k < |es[1..]| ensures Run(Do(v, es[0]), es[1..][..k]).current != j {
      RunTail(v, es, k);
    }
  }

  /** What a process saved is untouched while it is away, and is what it gets back. */
  lemma {:induction false} Parked(v: Snapshot, es: seq<Event>, j: nat)
    requires v.Ok() && j < |v.saved| && v.current != j && Away(v, es, j)
    ensures var w := Run(v, es);
      j < |w.saved| && (if w.current == j then w.running else w.saved[j]) == v.saved[j]
    decreases |es|
  {
    if es != [] {
      AwayTail(v, es, j);
      var w := Do(v, es[0]);
      if w.current == j {
        if |es| > 1 {
          AwayTail(w, es[1..], j);
        }
      } else {
        Parked(w, es[1..], j);
      }
    }
  }

  /** Context switching is transparent: whenever a process that was switched out runs again, it has exactly
      the registers, stack pointer and place in the code it had then, whatever ran and was created meanwhile. */
  lemma SwitchIsTransparent(v: Snapshot, es: seq<Event>)
    requires v.Ok() && |v.saved| > 1
    requires Away(Do(v, Scheduled), es, v.current) && Run(Do(v, Scheduled), es).current == v.current
    ensures Run(Do(v, Scheduled), es).running == v.running
  {
    Parked(Do(v, Scheduled), es, v.current);
  }

  /** A new process starts with the context it was created with. */
  lemma StartsAtEntry(v: Snapshot, start: Context, es: seq<Event>)
    requires v.Ok() && |v.saved| < MAX_PROC
    requires Away(Do(v, Created(start)), es, |v.saved|) && Run(Do(v, Created(start)), es).current == |v.saved|
    ensures Run(Do(v, Created(start)), es).running == start
  {
    Parked(Do(v, Created(start)), es, |v.saved|);
  }
}
