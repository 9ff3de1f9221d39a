// Every run of the thread system with its semaphores.
module ThreadRun {
  import opened ThreadState
  import opened ThreadRoom
  import opened Threads
  import opened Semaphores

  // ---- Runs of the specification ----

  ghost predicate Next(k: Kernel, op: Op, k': Kernel) {
    Allowed(k, op) && Step(k, op, k')
  }

  ghost predicate IsRun(trace: seq<Kernel>, ops: seq<Op>) {
    |trace| == |ops| + 1 && forall i :: 0 <= i < |ops| ==> Next(trace[i], ops[i], trace[i + 1])
  }

  // All along every run each thread is in one place, each count is what the calls made
  // it, and nobody sleeps on a semaphore that could be taken.
  lemma {:induction false} RunsKeep(trace: seq<Kernel>, ops: seq<Op>, i: nat)
    requires IsRun(trace, ops) && KernelOk(trace[0]) && i < |trace|
    ensures KernelOk(trace[i])
  {
    hide KernelOk, Allowed, Step;
    if i > 0 {
      RunsKeep(trace, ops, i - 1);
      assert Next(trace[i - 1], ops[i - 1], trace[i]);
      StepKeeps(trace[i - 1], ops[i - 1], trace[i]);
    }
  }

  // ---- The code runs it ----

  ghost predicate Keyed(sems: seq<Semaphore>) {
    && (forall i :: 0 <= i < |sems| ==> sems[i].key == i + 1)
    && (forall i, j :: 0 <= i < j < |sems| ==> sems[i] != sems[j])
  }

  ghost function Tallies(sems: seq<Semaphore>): (s: seq<Tally>)
    reads sems
    ensures |s| == |sems| && forall i :: 0 <= i < |s| ==> s[i] == sems[i].Abs()
  {
    seq(|sems|, i requires 0 <= i < |sems| reads sems => sems[i].Abs())
  }

  ghost function KernelOf(sys: ThreadSystem, sems: seq<Semaphore>): Kernel
    requires sys.Apart()
    reads sys, sys.run, sys.run.data, sys.sleepers, sys.sleepers.v, sys.zombies, sys.zombies.v, sems
  {
    Kernel(sys.State(), Tallies(sems))
  }

  // Whether a call gets by without memory. A fork that lacks memory fails, which is not
  // an assertion.
  ghost predicate OpFits(k: Kernel, c: Caps, op: Op) {
    match op
    case Fork(_) => true
    case Yield(_) => !YieldShort(k.y, c)
    case Sleep(a, idles) => SwitchFits(Addressed(k.y, a), c, Asleep, idles)
    case Exit(idles) => SwitchFits(k.y, c, Dead, idles)
    case Wakeup(a) => WakeFits(k.y, c, a)
    case Resume(idles) => IdleFits(k.y, c, idles)
    case P(i, idles) => i < |k.sems| && (k.sems[i].count > 0 || SwitchFits(Addressed(k.y, i + 1), c, Asleep, idles))
    case V(i) => WakeFits(k.y, c, i + 1)
  }

  // A call of the thread system proper.
  method ThreadCall(sys: ThreadSystem, op: Op, mem: bool) returns (ok: bool)
    requires sys.Valid() && !op.P? && !op.V? && Allowed(Kernel(sys.State(), []), op)
    modifies sys, sys.run, sys.run.data, sys.sleepers, sys.sleepers.v, sys.zombies, sys.zombies.v
    ensures sys.Apart() && fresh(sys.Foot() - old(sys.Foot())) && NoLess(old(sys.Room()), sys.Room())
    ensures ok <==> mem || OpFits(Kernel(old(sys.State()), []), old(sys.Room()), op)
    ensures ok ==> sys.Valid() && Step(Kernel(old(sys.State()), []), op, Kernel(sys.State(), []))
  {
    hide Placed, Alive, YieldSys, SleepSys, ExitSys, Schedule, Wake, ThreadState.Fork;
    hide Provided, SwitchFits, WakeFits, IdleFits, YieldShort, Exorcised, NoLess;
    var out := Running;
    ok := true;
    CurrentOk(sys.State());
    match op {
      case Fork(t) => var forked := sys.ForkThread(t, (mem, mem, mem), mem);
      case Yield(idles) => out := sys.Yield(idles, mem);
      case Sleep(a, idles) => out := sys.Sleep(a, idles, mem);
      case Exit(idles) => out := sys.Exit(idles, mem);
      case Wakeup(a) =>
        ghost var c := sys.Room();
        WakeKeeps(sys.State(), a);
        ok := sys.Wakeup(a, mem);
        ProvidedStays(sys.numthreads, sys.numthreads, c, sys.Room());
      case Resume(idles) => out := sys.Resume(idles, mem);
    }
    ok := ok && out != OutOfMemory;
  }

  lemma ThreadStep(y: Sys, op: Op, y': Sys, sems: seq<Tally>)
    requires !op.P? && !op.V? && Step(Kernel(y, []), op, Kernel(y', []))
    ensures Step(Kernel(y, sems), op, Kernel(y', sems))
  {
  }

  lemma CurOf(sys: ThreadSystem)
    requires sys.Apart()
    ensures sys.State().cur == sys.cur
  {
  }

  // A call on a semaphore.
  method SemaphoreCall(sys: ThreadSystem, sems: seq<Semaphore>, op: Op, mem: bool) returns (ok: bool)
    requires sys.Valid() && Keyed(sems) && (op.P? || op.V?) && Allowed(KernelOf(sys, sems), op)
    modifies sys, sys.run, sys.run.data, sys.sleepers, sys.sleepers.v, sys.zombies, sys.zombies.v, sems
    ensures sys.Apart() && fresh(sys.Foot() - old(sys.Foot())) && NoLess(old(sys.Room()), sys.Room())
    ensures ok <==> mem || OpFits(old(KernelOf(sys, sems)), old(sys.Room()), op)
    ensures ok ==> sys.Valid() && Step(old(KernelOf(sys, sems)), op, KernelOf(sys, sems))
  {
    hide Placed, SleepSys, Wake, ThreadSystem.State, ThreadSystem.Apart, SwitchFits, WakeFits, Provided, ThreadSystem.Room;
    ghost var s := Tallies(sems);
    CurOf(sys);
    if op.P? {
      var done, out := sems[op.i].P(sys, op.idles, mem);
      ok := out != OutOfMemory;
    } else {
      ok := sems[op.i].V(sys, mem);
    }
    assert Tallies(sems) == s[op.i := sems[op.i].Abs()];
  }

  // Any call is a step of the specification, or else it needed memory and got none.
  method Perform(sys: ThreadSystem, sems: seq<Semaphore>, op: Op, mem: bool) returns (ok: bool)
    requires sys.Valid() && Keyed(sems) && Allowed(KernelOf(sys, sems), op)
    modifies sys, sys.run, sys.run.data, sys.sleepers, sys.sleepers.v, sys.zombies, sys.zombies.v, sems
    ensures sys.Apart() && fresh(sys.Foot() - old(sys.Foot())) && NoLess(old(sys.Room()), sys.Room())
    ensures ok <==> mem || OpFits(old(KernelOf(sys, sems)), old(sys.Room()), op)
    ensures ok ==> sys.Valid() && Next(old(KernelOf(sys, sems)), op, KernelOf(sys, sems))
  {
    hide Placed, Alive, Step, ThreadSystem.State, ThreadSystem.Apart, Provided, ThreadSystem.Room;
    hide SwitchFits, WakeFits, IdleFits, YieldShort;
    ghost var y, s := sys.State(), Tallies(sems);
    if op.P? || op.V? {
      ok := SemaphoreCall(sys, sems, op, mem);
    } else {
      ok := ThreadCall(sys, op, mem);
      assert Tallies(sems) == s;
      if ok { ThreadStep(y, op, sys.State(), s); }
    }
  }
}
