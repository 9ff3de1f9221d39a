// Counting semaphores on top of the thread system, and runs of both.
module Semaphores {
  import opened ThreadState
  import opened ThreadRoom
  import opened Threads

  // A semaphore's count, with how it came about.
  datatype Tally = Tally(count: nat, initial: nat, ps: nat, vs: nat)

  class Semaphore {
    // Its address: what threads sleep on.
    const key: nat
    var count: nat
    ghost var initial: nat
    ghost var ps: nat
    ghost var vs: nat

    ghost function Abs(): Tally
      reads this
    {
      Tally(count, initial, ps, vs)
    }

    // sem_create
    constructor (key: nat, n: nat)
      ensures this.key == key && Abs() == Tally(n, n, 0, 0)
    {
      this.key, count := key, n;
      initial, ps, vs := n, 0, 0;
    }

    // One pass of the loop of P by the running thread: it sleeps, to try again when it
    // runs again, or it takes the semaphore.
    method P(sys: ThreadSystem, idles: seq<nat>, mem: bool) returns (done: bool, out: Outcome)
      requires sys.Valid() && sys.cur >= 0
      modifies this, sys, sys.run, sys.run.data, sys.sleepers, sys.sleepers.v, sys.zombies, sys.zombies.v
      ensures sys.Apart() && fresh(sys.Foot() - old(sys.Foot())) && NoLess(old(sys.Room()), sys.Room())
      ensures done <==> old(count) > 0
      ensures out != OutOfMemory <==> mem || old(count) > 0 || SwitchFits(Addressed(old(sys.State()), key), old(sys.Room()), Asleep, idles)
      ensures out != OutOfMemory ==> sys.Valid() && TookPass(old(sys.State()), old(Abs()), key, idles, sys.State(), Abs())
      ensures out != OutOfMemory && !done ==> SleepsUnless(sys.State(), old(sys.cur), key, key in idles)
    {
      hide Placed, SleepSys, SwitchFits, Provided, SleepsUnless;
      if count == 0 {
        out := sys.Sleep(key, idles, mem);
        return false, out;
      }
      count := count - 1;
      ps := ps + 1;
      return true, Running;
    }

    // V
    method V(sys: ThreadSystem, mem: bool) returns (ok: bool)
      requires sys.Valid()
      modifies this, sys.run, sys.run.data, sys.sleepers`num, sys.sleepers.v
      ensures sys.Apart() && fresh(sys.Foot() - old(sys.Foot())) && NoLess(old(sys.Room()), sys.Room())
      ensures ok <==> mem || WakeFits(old(sys.State()), old(sys.Room()), key)
      ensures ok ==> sys.Valid() && sys.State() == Wake(old(sys.State()), key)
      ensures sys.cur >= 0 ==> ok
      ensures ok ==> Abs() == old(Abs()).(count := old(count) + 1, vs := old(vs) + 1)
    {
      hide Placed, Wake, WakeFits, Provided;
      ghost var c := sys.Room();
      WakeKeeps(sys.State(), key);
      if sys.cur >= 0 { WakeNeedsNone(sys.State(), c, key); }
      count := count + 1;
      vs := vs + 1;
      ok := sys.Wakeup(key, mem);
      ProvidedStays(sys.numthreads, sys.numthreads, c, sys.Room());
    }
  }

  // What one pass of P does.
  ghost predicate TookPass(y: Sys, s: Tally, key: nat, idles: seq<nat>, y': Sys, s': Tally) {
    if s.count == 0 then s' == s && y' == SleepSys(y, key, idles)
    else y' == y && s' == s.(count := s.count - 1, ps := s.ps + 1)
  }

  // ---- Threads and semaphores together ----

  // Semaphore i has address i + 1.
  datatype Kernel = Kernel(y: Sys, sems: seq<Tally>)

  ghost predicate TallyOk(y: Sys, s: Tally, key: nat) {
    s.count == s.initial + s.vs - s.ps && (s.count > 0 ==> NoSleeper(y, key))
  }

  // Every thread in one place; every count is what the calls made it; nobody sleeps on
  // a semaphore that could be taken.
  ghost predicate KernelOk(k: Kernel) {
    Placed(k.y) && forall i :: 0 <= i < |k.sems| ==> TallyOk(k.y, k.sems[i], i + 1)
  }

  datatype Op =
    | Fork(t: nat)
    | Yield(idles: seq<nat>)
    | Sleep(a: nat, idles: seq<nat>)
    | Exit(idles: seq<nat>)
    | Wakeup(a: nat)
    | Resume(idles: seq<nat>)
    | P(i: nat, idles: seq<nat>)
    | V(i: nat)

  // Forking takes a new thread; the running thread makes the calls that need one;
  // only P sleeps on semaphores.
  ghost predicate Allowed(k: Kernel, op: Op) {
    match op
    case Fork(t) => k.y.cur >= 0 && t !in Alive(k.y) && t !in k.y.zombies
    case Yield(_) => true
    case Sleep(a, _) => k.y.cur >= 0 && a > |k.sems|
    case Exit(_) => k.y.cur >= 0
    case Wakeup(_) => true
    case Resume(_) => k.y.cur < 0
    case P(i, _) => k.y.cur >= 0 && i < |k.sems|
    case V(i) => i < |k.sems|
  }

  ghost predicate Step(k: Kernel, op: Op, k': Kernel) {
    match op
    case Fork(t) => k' == k || k' == k.(y := ThreadState.Fork(k.y, t))
    case Yield(idles) => k' == k.(y := YieldSys(k.y, idles))
    case Sleep(a, idles) => k' == k.(y := SleepSys(k.y, a, idles))
    case Exit(idles) => k' == k.(y := ExitSys(k.y, idles))
    case Wakeup(a) => k' == k.(y := Wake(k.y, a))
    case Resume(idles) => k' == k.(y := Schedule(k.y, idles))
    case P(i, idles) =>
      && i < |k.sems| == |k'.sems| && k'.sems == k.sems[i := k'.sems[i]]
      && TookPass(k.y, k.sems[i], i + 1, idles, k'.y, k'.sems[i])
    case V(i) =>
      && i < |k.sems| && k'.y == Wake(k.y, i + 1)
      && k'.sems == k.sems[i := k.sems[i].(count := k.sems[i].count + 1, vs := k.sems[i].vs + 1)]
  }

  // ---- What every step keeps ----

  lemma ScheduleKeeps(y: Sys, idles: seq<nat>)
    requires Placed(y) && y.cur == -1
    ensures Placed(Schedule(y, idles))
  {
    hide Placed;
    IdleKeeps(y, idles);
    DispatchKeeps(Idle(y, idles));
  }

  lemma SleepKeeps(y: Sys, a: nat, idles: seq<nat>)
    requires Placed(y) && y.cur >= 0
    ensures Placed(SleepSys(y, a, idles)) && y.cur !in y.sleepers
  {
    OnePlace(y, y.cur);
    hide Placed, Schedule;
    AddrKeeps(y, y.addr[y.cur := a]);
    StashKeeps(y.(addr := y.addr[y.cur := a]), Asleep);
    ScheduleKeeps(Stash(y.(addr := y.addr[y.cur := a]), Asleep), idles);
  }

  lemma SwitchKeeps(y: Sys, idles: seq<nat>, a: nat)
    requires Placed(y) && y.cur >= 0
    ensures Placed(YieldSys(y, idles)) && Placed(ExitSys(y, idles))
    ensures NoSleeper(y, a) && a != 0 ==> NoSleeper(YieldSys(y, idles), a) && NoSleeper(ExitSys(y, idles), a)
  {
    hide Placed, Schedule;
    StashKeeps(y, Ready);
    StashKeeps(y, Dead);
    var r, d := Stash(y, Ready), Stash(y.(numthreads := y.numthreads - 1), Dead);
    ScheduleKeeps(r, idles);
    ScheduleKeeps(d, idles);
    if NoSleeper(y, a) && a != 0 {
      ScheduleClears(r, idles, a);
      ScheduleClears(d, idles, a);
    }
  }

  lemma {:induction false} StepPlaced(k: Kernel, op: Op, k': Kernel)
    requires KernelOk(k) && Allowed(k, op) && Step(k, op, k')
    ensures Placed(k'.y)
  {
    hide Placed, TallyOk, Alive, YieldSys, SleepSys, ExitSys, Schedule, Wake, ThreadState.Fork;
    match op
    case Fork(t) => ForkKeeps(k.y, t);
    case Yield(idles) => YieldPlaced(k.y, idles);
    case Sleep(a, idles) => SleepKeeps(k.y, a, idles);
    case Exit(idles) => SwitchKeeps(k.y, idles, 0);
    case Wakeup(a) => WakeKeeps(k.y, a);
    case Resume(idles) => CurrentOk(k.y); ScheduleKeeps(k.y, idles);
    case P(i, idles) => SleepKeeps(k.y, i + 1, idles);
    case V(i) => WakeKeeps(k.y, i + 1);
  }

  lemma YieldPlaced(y: Sys, idles: seq<nat>)
    requires Placed(y)
    ensures Placed(YieldSys(y, idles))
    ensures forall a :: a != 0 && NoSleeper(y, a) ==> NoSleeper(YieldSys(y, idles), a)
  {
    hide Placed, Schedule, NoSleeper;
    if y.cur >= 0 {
      SwitchKeeps(y, idles, 0);
      forall a | a != 0 && NoSleeper(y, a) ensures NoSleeper(YieldSys(y, idles), a) {
        SwitchKeeps(y, idles, a);
      }
    }
  }

  // Whoever sleeps on a semaphore after a step slept on it before, or a P found it 0.
  lemma StepQuiet(k: Kernel, op: Op, k': Kernel, a: nat)
    requires KernelOk(k) && Allowed(k, op) && Step(k, op, k') && 0 < a <= |k.sems| && NoSleeper(k.y, a)
    requires op.P? && op.i + 1 == a ==> k.sems[op.i].count > 0
    ensures NoSleeper(k'.y, a)
  {
    hide Placed, TallyOk, Alive, YieldSys, SleepSys, ExitSys, Schedule, Wake, NoSleeper;
    match op
    case Fork(t) => ForkClears(k.y, t, a);
    case Yield(idles) => YieldPlaced(k.y, idles);
    case Sleep(b, idles) => SleepKeeps(k.y, b, idles); SleepClears(k.y, b, idles, a);
    case Exit(idles) => SwitchKeeps(k.y, idles, a);
    case Wakeup(b) => WakeClears(k.y, b);
    case Resume(idles) => ScheduleClears(k.y, idles, a);
    case P(i, idles) =>
      SleepKeeps(k.y, i + 1, idles);
      if i + 1 != a { SleepClears(k.y, i + 1, idles, a); }
    case V(i) => WakeClears(k.y, i + 1);
  }

  lemma ForkClears(y: Sys, t: nat, a: nat)
    requires NoSleeper(y, a)
    ensures NoSleeper(ThreadState.Fork(y, t), a)
  {
  }

  lemma StepTally(k: Kernel, op: Op, k': Kernel, i: nat)
    requires KernelOk(k) && Allowed(k, op) && Step(k, op, k') && i < |k.sems|
    ensures |k'.sems| == |k.sems| && TallyOk(k'.y, k'.sems[i], i + 1)
  {
    hide Placed, Alive, YieldSys, SleepSys, ExitSys, Schedule, Wake, NoSleeper, ThreadState.Fork;
    assert TallyOk(k.y, k.sems[i], i + 1);
    if op.V? && op.i == i {
      WakeClears(k.y, i + 1);
    } else if k.sems[i].count > 0 {
      StepQuiet(k, op, k', i + 1);
    }
  }

  // The invariant is kept by every step.
  lemma StepKeeps(k: Kernel, op: Op, k': Kernel)
    requires KernelOk(k) && Allowed(k, op) && Step(k, op, k')
    ensures KernelOk(k') && |k'.sems| == |k.sems|
  {
    hide Placed, TallyOk, Step, Allowed;
    StepPlaced(k, op, k');
    StepSems(k, op, k');
    forall i | 0 <= i < |k'.sems| ensures TallyOk(k'.y, k'.sems[i], i + 1) {
      StepTally(k, op, k', i);
    }
  }

  lemma StepSems(k: Kernel, op: Op, k': Kernel)
    requires Step(k, op, k')
    ensures |k'.sems| == |k.sems|
  {
  }
}
