// What becomes of each thread over a run: a sleeper sleeps until its address is woken, a dead
// thread stays dead, and a semaphore is taken as often as its count allows.
module ThreadLife {
  import opened ThreadState
  import opened Semaphores
  import opened ThreadRun

  // ---- Sleepers ----

  // The address a call wakes, if it is made to wake one.
  predicate WakesOn(op: Op, a: nat) {
    op == Wakeup(a) || (op.V? && op.i + 1 == a)
  }

  // Interrupts that come while the machine idles in this call.
  function Idles(op: Op): seq<nat> {
    match op
    case Yield(idles) => idles
    case Sleep(_, idles) => idles
    case Exit(idles) => idles
    case Resume(idles) => idles
    case P(_, idles) => idles
    case _ => []
  }

  lemma StashSleeper(y: Sys, where: Where, idles: seq<nat>, t: nat, a: nat)
    requires y.cur >= 0 && Placed(Stash(y, where)) && AsleepOn(y, t, a)
    ensures SleepsUnless(Schedule(Stash(y, where), idles), t, a, a in idles)
  {
    hide Placed, Schedule;
    ScheduleSleeper(Stash(y, where), idles, t, a);
  }

  lemma SleepSleeper(y: Sys, b: nat, idles: seq<nat>, t: nat, a: nat)
    requires Placed(y) && y.cur >= 0 && AsleepOn(y, t, a)
    ensures SleepsUnless(SleepSys(y, b, idles), t, a, a in idles)
  {
    OnePlace(y, y.cur);
    assert t in multiset(y.sleepers);
    var z := y.(addr := y.addr[y.cur := b]);
    AddrKeeps(y, z.addr);
    StashKeeps(z, Asleep);
    hide Placed, Schedule;
    StashSleeper(z, Asleep, idles, t, a);
  }

  lemma YieldSleeper(y: Sys, idles: seq<nat>, t: nat, a: nat)
    requires Placed(y) && AsleepOn(y, t, a)
    ensures SleepsUnless(YieldSys(y, idles), t, a, a in idles)
  {
    hide Placed, Schedule;
    if y.cur >= 0 {
      StashKeeps(y, Ready);
      StashSleeper(y, Ready, idles, t, a);
    }
  }

  lemma ExitSleeper(y: Sys, idles: seq<nat>, t: nat, a: nat)
    requires Placed(y) && y.cur >= 0 && AsleepOn(y, t, a)
    ensures SleepsUnless(ExitSys(y, idles), t, a, a in idles)
  {
    hide Placed, Schedule;
    StashKeeps(y, Dead);
    var z := y.(numthreads := y.numthreads - 1);
    assert Stash(z, Dead) == Stash(y, Dead).(numthreads := y.numthreads - 1);
    StashSleeper(z, Dead, idles, t, a);
  }

  // A thread asleep on an address is queued by a call on that address, and stirs for nothing
  // else but an interrupt on it while the machine idles.
  lemma StepSleeper(k: Kernel, op: Op, k': Kernel, t: nat, a: nat)
    requires KernelOk(k) && Next(k, op, k') && AsleepOn(k.y, t, a)
    ensures SleepsUnless(k'.y, t, a, WakesOn(op, a) || a in Idles(op))
    ensures WakesOn(op, a) ==> t in k'.y.run
  {
    hide TallyOk, Placed, Schedule, Wake, Stash, Alive, YieldSys, SleepSys, ExitSys;
    match op
    case Fork(u) =>
    case Yield(idles) => YieldSleeper(k.y, idles, t, a);
    case Sleep(b, idles) => SleepSleeper(k.y, b, idles, t, a);
    case Exit(idles) => ExitSleeper(k.y, idles, t, a);
    case Wakeup(b) => WakeSleeper(k.y, t, a, b);
    case Resume(idles) => CurrentOk(k.y); ScheduleSleeper(k.y, idles, t, a);
    case P(i, idles) => SleepSleeper(k.y, i + 1, idles, t, a);
    case V(i) => WakeSleeper(k.y, t, a, i + 1);
  }

  // Over every run: until a call or an interrupt on its address a sleeper stays asleep on it,
  lemma {:induction false} SleepsUntil(trace: seq<Kernel>, ops: seq<Op>, m: nat, n: nat, t: nat, a: nat)
    requires IsRun(trace, ops) && KernelOk(trace[0]) && m <= n <= |ops| && AsleepOn(trace[m].y, t, a)
    requires forall i :: m <= i < n ==> !WakesOn(ops[i], a) && a !in Idles(ops[i])
    ensures AsleepOn(trace[n].y, t, a)
    decreases n
  {
    hide KernelOk, Next, AsleepOn, WakesOn, Idles, Up;
    if n > m {
      SleepsUntil(trace, ops, m, n - 1, t, a);
      RunsKeep(trace, ops, n - 1);
      assert Next(trace[n - 1], ops[n - 1], trace[n]);
      StepSleeper(trace[n - 1], ops[n - 1], trace[n], t, a);
    }
  }

  // and the next call on it queues the sleeper.
  lemma NextCallWakes(trace: seq<Kernel>, ops: seq<Op>, m: nat, n: nat, t: nat, a: nat)
    requires IsRun(trace, ops) && KernelOk(trace[0]) && m <= n < |ops| && AsleepOn(trace[m].y, t, a)
    requires forall i :: m <= i < n ==> !WakesOn(ops[i], a) && a !in Idles(ops[i])
    requires WakesOn(ops[n], a)
    ensures t in trace[n + 1].y.run
  {
    hide KernelOk, Next, AsleepOn, WakesOn, Idles;
    SleepsUntil(trace, ops, m, n, t, a);
    RunsKeep(trace, ops, n);
    assert Next(trace[n], ops[n], trace[n + 1]);
    StepSleeper(trace[n], ops[n], trace[n + 1], t, a);
  }

  // A thread that finds a semaphore at 0 sleeps on it, and the next V of it queues the thread.
  lemma PSleepsUntilV(trace: seq<Kernel>, ops: seq<Op>, m: nat, n: nat, i: nat)
    requires IsRun(trace, ops) && KernelOk(trace[0]) && m < n < |ops|
    requires ops[m].P? && ops[m].i == i < |trace[m].sems| && trace[m].sems[i].count == 0 && trace[m].y.cur >= 0
    requires forall x :: m < x < n ==> !WakesOn(ops[x], i + 1) && i + 1 !in Idles(ops[x])
    requires i + 1 !in Idles(ops[m]) && ops[n] == V(i)
    ensures AsleepOn(trace[n].y, trace[m].y.cur, i + 1) && trace[m].y.cur in trace[n + 1].y.run
  {
    hide Placed, TallyOk, AsleepOn, SleepSys, Up;
    RunsKeep(trace, ops, m);
    assert Next(trace[m], ops[m], trace[m + 1]);
    SleepPuts(trace[m].y, i + 1, ops[m].idles);
    SleepsUntil(trace, ops, m + 1, n, trace[m].y.cur, i + 1);
    NextCallWakes(trace, ops, m + 1, n, trace[m].y.cur, i + 1);
  }

  // ---- The dead ----

  // A thread that exited does not run, wait or sleep again, unless its number is forked anew.
  lemma StepDead(k: Kernel, op: Op, k': Kernel, t: nat)
    requires KernelOk(k) && Next(k, op, k') && t !in Alive(k.y) && op != Fork(t)
    ensures t !in Alive(k'.y)
  {
    hide TallyOk, Placed, Schedule, Wake, Stash, Alive, YieldSys, SleepSys, ExitSys;
    match op
    case Fork(u) => ForkKeeps(k.y, u);
    case Yield(idles) => SwitchAlive(k.y, idles, t);
    case Sleep(b, idles) => SleepAlive(k.y, b, idles, t);
    case Exit(idles) => ExitAlive(k.y, idles, t);
    case Wakeup(b) => WakeKeeps(k.y, b);
    case Resume(idles) => CurrentOk(k.y); ScheduleAlive(k.y, idles);
    case P(i, idles) => SleepAlive(k.y, i + 1, idles, t);
    case V(i) => WakeKeeps(k.y, i + 1);
  }

  lemma ScheduleAlive(y: Sys, idles: seq<nat>)
    requires Placed(y) && y.cur == -1
    ensures forall t :: t in Alive(Schedule(y, idles)) <==> t in Alive(y)
  {
    hide Placed, Alive;
    IdleKeeps(y, idles);
    DispatchKeeps(Idle(y, idles));
  }

  lemma SwitchAlive(y: Sys, idles: seq<nat>, t: nat)
    requires Placed(y) && t !in Alive(y)
    ensures t !in Alive(YieldSys(y, idles))
  {
    if y.cur >= 0 {
      StashKeeps(y, Ready);
      assert t !in Alive(Stash(y, Ready));
      hide Placed, Alive, Schedule;
      ScheduleAlive(Stash(y, Ready), idles);
    }
  }

  lemma SleepAlive(y: Sys, b: nat, idles: seq<nat>, t: nat)
    requires Placed(y) && y.cur >= 0 && t !in Alive(y)
    ensures t !in Alive(SleepSys(y, b, idles))
  {
    var z := y.(addr := y.addr[y.cur := b]);
    AddrKeeps(y, z.addr);
    StashKeeps(z, Asleep);
    assert t !in Alive(Stash(z, Asleep));
    hide Placed, Alive, Schedule;
    ScheduleAlive(Stash(z, Asleep), idles);
  }

  // The thread that exits was running, and nowhere else.
  lemma ExitLeaves(y: Sys, t: nat)
    requires Placed(y) && y.cur >= 0 && (t !in Alive(y) || t == y.cur)
    ensures t !in Alive(Stash(y, Dead))
  {
    OnePlace(y, y.cur);
    assert t in y.run ==> t in multiset(y.run);
    assert t in y.sleepers ==> t in multiset(y.sleepers);
    hide Placed;
  }

  lemma ExitAlive(y: Sys, idles: seq<nat>, t: nat)
    requires Placed(y) && y.cur >= 0 && (t !in Alive(y) || t == y.cur)
    ensures t !in Alive(ExitSys(y, idles))
  {
    hide Placed, Schedule;
    var z := Stash(y.(numthreads := y.numthreads - 1), Dead);
    StashKeeps(y, Dead);
    ExitLeaves(y, t);
    assert z == Stash(y, Dead).(numthreads := y.numthreads - 1);
    assert Alive(z) == Alive(Stash(y, Dead));
    ScheduleAlive(z, idles);
  }

  // Over every run: after thread_exit the thread is never anywhere again.
  lemma {:induction false} StaysDead(trace: seq<Kernel>, ops: seq<Op>, m: nat, n: nat, t: nat)
    requires IsRun(trace, ops) && KernelOk(trace[0]) && m < n <= |ops| && ops[m].Exit? && trace[m].y.cur == t
    requires forall i :: m < i < n ==> ops[i] != Fork(t)
    ensures t !in Alive(trace[n].y)
    decreases n
  {
    hide TallyOk, Placed, Alive, ExitSys;
    RunsKeep(trace, ops, n - 1);
    assert Next(trace[n - 1], ops[n - 1], trace[n]);
    if n == m + 1 {
      ExitAlive(trace[m].y, ops[m].idles, t);
    } else {
      StaysDead(trace, ops, m, n - 1, t);
      StepDead(trace[n - 1], ops[n - 1], trace[n], t);
    }
  }

  // ---- Semaphores ----

  // ---- The dead ----

  // The dead are kept, with the thread that exits as the last, until a thread that ran before
  // gets the processor again; then all of them are destroyed.
  lemma StepReaps(k: Kernel, op: Op, k': Kernel)
    requires KernelOk(k) && Next(k, op, k')
    ensures k'.y.zombies == [] || k'.y.zombies == k.y.zombies + Leaving(k, op)
    ensures k'.y.cur != k.y.cur && k'.y.cur >= 0 ==> (k'.y.zombies == [] || k'.y.cur !in k.y.started)
    ensures k'.y.cur == -1 || k'.y.cur !in k.y.started ==> k'.y.zombies == k.y.zombies + Leaving(k, op)
  {
    hide TallyOk, Placed, Matching, Others;
    match op
    case Yield(idles) => IdleDead(Stash(k.y, Ready), idles);
    case Sleep(b, idles) => IdleDead(Stash(k.y.(addr := k.y.addr[k.y.cur := b]), Asleep), idles);
    case Exit(idles) => IdleDead(Stash(k.y.(numthreads := k.y.numthreads - 1), Dead), idles);
    case Resume(idles) => IdleDead(k.y, idles);
    case P(i, idles) => IdleDead(Stash(k.y.(addr := k.y.addr[k.y.cur := i + 1]), Asleep), idles);
    case _ =>
  }

  function Leaving(k: Kernel, op: Op): seq<nat> {
    if op.Exit? && k.y.cur >= 0 then [k.y.cur] else []
  }

  lemma {:induction false} IdleDead(y: Sys, idles: seq<nat>)
    ensures var z := Idle(y, idles); z.zombies == y.zombies && z.started == y.started && z.cur == y.cur
    decreases |idles|
  {
    hide Matching, Others;
    if y.run == [] && idles != [] { IdleDead(Wake(y, idles[0]), idles[1..]); }
  }

  // ---- Counting ----

  // How often semaphore i was taken, and how often given, in the first n steps of a run.
  ghost function Takes(trace: seq<Kernel>, ops: seq<Op>, i: nat, n: nat): nat
    requires n <= |ops| < |trace|
  {
    if n == 0 then 0
    else Takes(trace, ops, i, n - 1) + if Taken(trace[n - 1], ops[n - 1], i) then 1 else 0
  }

  // The call is a P of semaphore i that does not have to wait.
  predicate Taken(k: Kernel, op: Op, i: nat) {
    op.P? && op.i == i < |k.sems| && k.sems[i].count > 0
  }

  function Gives(ops: seq<Op>, i: nat, n: nat): nat
    requires n <= |ops|
  {
    if n == 0 then 0 else Gives(ops, i, n - 1) + if ops[n - 1] == V(i) then 1 else 0
  }

  // Over every run the count is what it was at first, plus the Vs, less the Ps that went
  // through: never more of these than that allows.
  lemma {:induction false} CountAdds(trace: seq<Kernel>, ops: seq<Op>, i: nat, n: nat)
    requires IsRun(trace, ops) && KernelOk(trace[0]) && n <= |ops| && i < |trace[0].sems|
    ensures |trace[n].sems| == |trace[0].sems|
    ensures trace[n].sems[i].count == trace[0].sems[i].count + Gives(ops, i, n) - Takes(trace, ops, i, n)
  {
    hide KernelOk, SleepSys, Wake, YieldSys, ExitSys, Schedule, ThreadState.Fork, Alive;
    if n > 0 {
      CountAdds(trace, ops, i, n - 1);
      assert Next(trace[n - 1], ops[n - 1], trace[n]);
    }
  }
}
