// The order in which the scheduler hands out the processor.
module ThreadFifo {
  import opened ThreadState
  import opened Semaphores
  import opened ThreadRun

  // The machine as it boots: one thread, running, and semaphores nobody has used.
  lemma BootOk(boot: nat, counts: seq<nat>)
    ensures KernelOk(Kernel(Sys(boot, [], [], [], 1, map[], {boot}), seq(|counts|, i requires 0 <= i < |counts| => Tally(counts[i], counts[i], 0, 0))))
  {
    hide Placed;
    BootPlaced(boot);
  }

  // Calls in which the running thread, or an idle machine, calls scheduler().
  predicate Switches(k: Kernel, op: Op) {
    match op
    case Yield(_) => k.y.cur >= 0
    case Sleep(_, _) => true
    case Exit(_) => true
    case Resume(_) => true
    case P(i, _) => i < |k.sems| && k.sems[i].count == 0
    case _ => false
  }

  // How many threads a step dispatches.
  function Picks(k: Kernel, op: Op, k': Kernel): nat {
    if Switches(k, op) && k'.y.cur >= 0 then 1 else 0
  }

  // A step adds threads at the tail of the run queue and takes at most its head.
  ghost predicate Fifo(y: Sys, added: seq<nat>, picks: nat, y': Sys) {
    var q := y.run + added;
    if picks == 0 then y'.run == q else q != [] && y'.cur == q[0] && y'.run == q[1..]
  }

  lemma {:induction false} IdleAdds(y: Sys, idles: seq<nat>) returns (added: seq<nat>)
    ensures Idle(y, idles).run == y.run + added
    decreases |idles|
  {
    if y.run != [] || idles == [] {
      added := [];
    } else {
      var z := Wake(y, idles[0]);
      var more := IdleAdds(z, idles[1..]);
      added := Matching(y.sleepers, y.addr, idles[0]) + more;
    }
  }

  lemma ScheduleFifo(y: Sys, idles: seq<nat>) returns (added: seq<nat>)
    requires y.cur == -1
    ensures Fifo(y, added, if Schedule(y, idles).cur >= 0 then 1 else 0, Schedule(y, idles))
  {
    added := IdleAdds(y, idles);
    IdleCur(y, idles);
    hide Idle;
  }

  lemma {:induction false} IdleCur(y: Sys, idles: seq<nat>)
    ensures Idle(y, idles).cur == y.cur
    decreases |idles|
  {
    if y.run == [] && idles != [] { IdleCur(Wake(y, idles[0]), idles[1..]); }
  }

  lemma StashFifo(y: Sys, where: Where, idles: seq<nat>) returns (added: seq<nat>)
    requires y.cur >= 0
    ensures var y' := Schedule(Stash(y, where), idles); Fifo(y, added, if y'.cur >= 0 then 1 else 0, y')
  {
    var z := Stash(y, where);
    var more := ScheduleFifo(z, idles);
    added := (if where == Ready then [y.cur] else []) + more;
    assert y.run + added == z.run + more;
    hide Schedule;
  }

  lemma SleepFifo(y: Sys, a: nat, idles: seq<nat>) returns (added: seq<nat>)
    requires y.cur >= 0
    ensures var y' := SleepSys(y, a, idles); Fifo(y, added, if y'.cur >= 0 then 1 else 0, y')
  {
    hide Schedule, Stash;
    added := StashFifo(y.(addr := y.addr[y.cur := a]), Asleep, idles);
  }

  lemma StepFifo(k: Kernel, op: Op, k': Kernel) returns (added: seq<nat>)
    requires KernelOk(k) && Next(k, op, k')
    ensures Fifo(k.y, added, Picks(k, op, k'), k'.y)
  {
    hide Placed, TallyOk, Schedule, Alive, Stash, SleepSys;
    CurrentOk(k.y);
    added := [];
    match op
    case Fork(t) =>
      if k' != k { added := [t]; }
    case Yield(idles) =>
      if k.y.cur >= 0 { added := StashFifo(k.y, Ready, idles); }
    case Sleep(a, idles) =>
      added := SleepFifo(k.y, a, idles);
    case Exit(idles) =>
      added := StashFifo(k.y.(numthreads := k.y.numthreads - 1), Dead, idles);
    case Wakeup(a) =>
      added := Matching(k.y.sleepers, k.y.addr, a);
    case Resume(idles) =>
      added := ScheduleFifo(k.y, idles);
    case P(i, idles) =>
      if k.sems[i].count == 0 { added := SleepFifo(k.y, i + 1, idles); }
    case V(i) =>
      added := Matching(k.y.sleepers, k.y.addr, i + 1);
  }

  // The threads dispatched in the first n steps of a run.
  ghost function PickCount(trace: seq<Kernel>, ops: seq<Op>, n: nat): nat
    requires n < |trace| && n <= |ops|
  {
    if n == 0 then 0 else PickCount(trace, ops, n - 1) + Picks(trace[n - 1], ops[n - 1], trace[n])
  }

  // A thread queued behind j others is the (j+1)-th thread dispatched, whatever is queued
  // meanwhile; until then it stays queued, behind those not yet dispatched.
  lemma {:induction false} InTurn(trace: seq<Kernel>, ops: seq<Op>, n: nat, j: nat)
    requires IsRun(trace, ops) && KernelOk(trace[0]) && n <= |ops| && j < |trace[0].y.run|
    ensures PickCount(trace, ops, n) <= j ==> j - PickCount(trace, ops, n) < |trace[n].y.run|
    ensures PickCount(trace, ops, n) <= j ==> trace[n].y.run[j - PickCount(trace, ops, n)] == trace[0].y.run[j]
    ensures n > 0 && PickCount(trace, ops, n - 1) == j < PickCount(trace, ops, n) ==> trace[n].y.cur == trace[0].y.run[j]
  {
    hide KernelOk, Allowed, Step, Picks;
    if n > 0 {
      InTurn(trace, ops, n - 1, j);
      RunsKeep(trace, ops, n - 1);
      assert Next(trace[n - 1], ops[n - 1], trace[n]);
      var added := StepFifo(trace[n - 1], ops[n - 1], trace[n]);
      AtMostOne(trace[n - 1], ops[n - 1], trace[n]);
    }
  }

  lemma AtMostOne(k: Kernel, op: Op, k': Kernel)
    ensures Picks(k, op, k') <= 1
  {
  }
}
