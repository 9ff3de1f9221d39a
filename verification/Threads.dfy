// The thread system with interrupts off: thread.c and scheduler.c.
module Threads {
  import opened RingQueues
  import opened PtrArrays
  import opened ThreadState
  import opened ThreadRoom

  // How a call ends: a thread runs, the machine idles, or an assertion failed for lack
  // of memory.
  datatype Outcome = Running | Idling | OutOfMemory

  function Store(v: array?<nat>): set<object> {
    if v == null then {} else {v}
  }

  // thread_wakeup after looking at the first k sleepers of y: the system, and the index
  // it has reached.
  ghost function Partway(y: Sys, a: nat, k: nat): Sys
    requires k <= |y.sleepers|
  {
    y.(run := y.run + Matching(y.sleepers[..k], y.addr, a), sleepers := Others(y.sleepers[..k], y.addr, a) + y.sleepers[k..])
  }

  ghost function Reached(y: Sys, a: nat, k: nat): nat
    requires k <= |y.sleepers|
  {
    |Others(y.sleepers[..k], y.addr, a)|
  }

  // While a matching sleeper is left, fewer are queued than will be.
  lemma PartwayRun(y: Sys, a: nat, k: nat)
    requires k < |y.sleepers| && AddrOf(y.addr, y.sleepers[k]) == a
    ensures |Partway(y, a, k).run| < |y.run| + |Matching(y.sleepers, y.addr, a)|
    ensures |Partway(y, a, k + 1).run| == |Partway(y, a, k).run| + 1
  {
    MatchingMore(y.sleepers, y.addr, a, k);
    assert y.sleepers[..k + 1][..k] == y.sleepers[..k];
  }

  lemma WakeLength(y: Sys, a: nat)
    ensures |Wake(y, a).run| == |y.run| + |Matching(y.sleepers, y.addr, a)|
  {
  }

  // Sleeper i moves to the run queue.
  function MoveOne(y: Sys, i: nat): Sys
    requires i < |y.sleepers|
  {
    y.(run := y.run + [y.sleepers[i]], sleepers := y.sleepers[..i] + y.sleepers[i + 1..])
  }

  lemma PartwayEnds(y: Sys, a: nat, k: nat)
    requires k <= |y.sleepers|
    ensures k == 0 ==> Partway(y, a, k) == y && Reached(y, a, k) == 0
    ensures |Partway(y, a, k).sleepers| == Reached(y, a, k) + |y.sleepers| - k
    ensures k == |y.sleepers| ==> Partway(y, a, k) == Wake(y, a)
  {
    assert y.sleepers[..|y.sleepers|] == y.sleepers && y.sleepers[0..] == y.sleepers && y.sleepers[..0] == [];
  }

  // One sleeper further on: moved, and the index stays, or kept, and the index moves.
  lemma PartwayNext(y: Sys, a: nat, k: nat)
    requires k < |y.sleepers|
    ensures var z, i := Partway(y, a, k), Reached(y, a, k);
            && i < |z.sleepers| && z.addr == y.addr && z.sleepers[i] == y.sleepers[k]
            && (if AddrOf(y.addr, z.sleepers[i]) == a
                then Partway(y, a, k + 1) == MoveOne(z, i) && Reached(y, a, k + 1) == i
                else Partway(y, a, k + 1) == z && Reached(y, a, k + 1) == i + 1)
  {
    var s := y.sleepers;
    var o, m := Others(s[..k], y.addr, a), Matching(s[..k], y.addr, a);
    assert s[..k + 1][..k] == s[..k];
    var left := o + s[k..];
    assert left[|o|] == s[k];
    assert left[..|o|] + left[|o| + 1..] == o + s[k + 1..];
    assert o + [s[k]] + s[k + 1..] == left;
    assert y.run + (m + [s[k]]) == y.run + m + [s[k]];
  }

  // What scheduler leaves once it stops idling in state z.
  ghost predicate Picked(z: Sys, y': Sys, t: int) {
    if z.run == [] then t == -1 && y' == z
    else t == z.run[0] && y' == z.(run := z.run[1..])
  }

  lemma IdleNext(y: Sys, idles: seq<nat>, j: nat)
    requires j < |idles| && y.run == []
    ensures Idle(y, idles[j..]) == Idle(Wake(y, idles[j]), idles[j + 1..])
  {
    assert idles[j..][1..] == idles[j + 1..];
  }

  lemma IdleOver(y: Sys, idles: seq<nat>)
    requires y.run != [] || idles == []
    ensures Idle(y, idles) == y
  {
  }

  class ThreadSystem {
    const run: Queue
    const sleepers: PtrArray
    const zombies: PtrArray
    var cur: int
    var numthreads: int
    var addr: map<nat, nat>
    var started: set<nat>

    // The objects the system is made of.
    ghost function Foot(): set<object>
      reads this, run, sleepers, zombies
    {
      {this, run, run.data, sleepers, zombies} + Store(sleepers.v) + Store(zombies.v)
    }

    ghost predicate Apart()
      reads this, run, sleepers, zombies
    {
      && run.Valid() && sleepers.Valid() && zombies.Valid() && sleepers != zombies
      && run.data != sleepers.v && run.data != zombies.v && (sleepers.v == null || sleepers.v != zombies.v)
    }

    ghost function State(): Sys
      requires Apart()
      reads this, run, run.data, sleepers, sleepers.v, zombies, zombies.v
    {
      Sys(cur, run.Contents(), sleepers.Contents(), zombies.Contents(), numthreads, addr, started)
    }

    // What the lists hold before they need memory: a ring keeps one slot empty.
    ghost function Room(): Caps
      reads run, sleepers, zombies
    {
      Caps(if run.size > 0 then run.size - 1 else 0, sleepers.max, zombies.max)
    }

    // thread_bootstrap and scheduler_bootstrap: one thread, running.
    constructor (boot: nat)
      ensures Valid() && fresh(Foot()) && Room() == Caps(31, 0, 0)
      ensures State() == Sys(boot, [], [], [], 1, map[], {boot})
    {
      hide Placed, Queue.Contents, Queue.Valid, PtrArray.Contents, PtrArray.Valid;
      run := new Queue(32);
      sleepers := new PtrArray();
      zombies := new PtrArray();
      cur, numthreads, addr, started := boot, 1, map[], {boot};
      BootPlaced(boot);
    }

    // make_runnable
    method MakeRunnable(t: nat, mem: bool) returns (ok: bool)
      requires Apart()
      modifies run, run.data
      ensures Apart() && fresh(Foot() - old(Foot()))
      ensures ok <==> mem || |old(State()).run| < old(Room()).run
      ensures State() == old(State()).(run := if ok then old(State()).run + [t] else old(State()).run)
      ensures NoLess(old(Room()), Room()) && (!mem || |old(State()).run| < old(Room()).run ==> Room() == old(Room()))
      ensures |old(State()).run| <= old(Room()).run
    {
      ok := run.Addtail(t, mem);
    }

    // The body of thread_wakeup for a sleeper that matches.
    method WakeOne(i: nat, mem: bool) returns (ok: bool)
      requires Apart() && i < sleepers.num
      modifies run, run.data, sleepers`num, sleepers.v
      ensures Apart() && fresh(Foot() - old(Foot())) && i < |old(State()).sleepers|
      ensures ok <==> mem || |old(State()).run| < old(Room()).run
      ensures ok ==> State() == MoveOne(old(State()), i)
      ensures NoLess(old(Room()), Room()) && (!mem || |old(State()).run| < old(Room()).run ==> Room() == old(Room()))
      ensures |old(State()).run| <= old(Room()).run
    {
      hide Queue.Contents, Queue.Valid;
      var t := sleepers.GetGuy(i);
      sleepers.Remove(i);
      ok := MakeRunnable(t, mem);
    }

    // thread_wakeup: remove while iterating.
    method Wakeup(a: nat, mem: bool) returns (ok: bool)
      requires Apart()
      modifies run, run.data, sleepers`num, sleepers.v
      ensures Apart() && fresh(Foot() - old(Foot())) && sleepers.max == old(sleepers.max)
      ensures ok <==> mem || WakeFits(old(State()), old(Room()), a)
      ensures ok ==> State() == Wake(old(State()), a)
      ensures NoLess(old(Room()), Room()) && (WakeFits(old(State()), old(Room()), a) ==> Room() == old(Room()))
    {
      hide Queue.Contents, Queue.Valid, PtrArray.Contents, PtrArray.Valid, Partway, Reached, MoveOne, Wake, Matching;
      ghost var y, c := State(), Room();
      var i := 0;
      ghost var k := 0;
      PartwayEnds(y, a, 0);
      SleeperCount();
      RunFits();
      while i < sleepers.num
        invariant Apart() && 0 <= k <= |y.sleepers| && i == Reached(y, a, k) && fresh(Foot() - old(Foot()))
        invariant sleepers.v == old(sleepers.v) && State() == Partway(y, a, k) && sleepers.num == |State().sleepers|
        invariant NoLess(c, Room()) && (!mem || |State().run| <= c.run ==> Room() == c) && |State().run| <= Room().run
        invariant sleepers.max == old(sleepers.max)
        decreases |y.sleepers| - k
      {
        PartwayEnds(y, a, k);
        PartwayNext(y, a, k);
        var t := sleepers.GetGuy(i);
        if AddrOf(addr, t) == a {
          PartwayRun(y, a, k);
          ok := WakeOne(i, mem);
          if !ok {
            return;
          }
          PartwayRun(y, a, k);
          SleeperCount();
          RunFits();
        } else {
          i := i + 1;
        }
        k := k + 1;
      }
      PartwayEnds(y, a, k);
      WakeLength(y, a);
      ok := true;
    }

    lemma RunFits()
      requires Apart()
      ensures |State().run| <= Room().run
    {
    }

    lemma SleeperCount()
      requires Apart()
      ensures sleepers.num == |State().sleepers|
    {
    }

    // exorcise: the dead threads are destroyed. The running one is not among them.
    method Exorcise()
      requires Apart() && (cur >= 0 ==> cur !in zombies.Contents())
      modifies zombies
      ensures Apart() && fresh(Foot() - old(Foot())) && State() == old(State()).(zombies := [])
      ensures Room() == old(Room()).(zombies := if old(Room()).zombies > 16 then 0 else old(Room()).zombies)
    {
      hide Queue.Contents, Queue.Valid;
      for i := 0 to zombies.num
        invariant Apart() && unchanged(zombies) && unchanged(sleepers) && unchanged(run) && State() == old(State())
      {
        var z := zombies.GetGuy(i);
        // thread_destroy
        assert z != cur;
      }
      var ok := zombies.SetSize(0, false);
      assert ok;
    }

    // The first half of mi_switch: the running thread goes on its list.
    method StashCurrent(where: Where, mem: bool) returns (ok: bool)
      requires Apart() && cur >= 0
      modifies this`cur, run, run.data, sleepers, sleepers.v, zombies, zombies.v
      ensures Apart() && fresh(Foot() - old(Foot()))
      ensures ok <==> mem || StashFits(old(State()), old(Room()), where)
      ensures ok ==> State() == Stash(old(State()), where)
      ensures NoLess(old(Room()), Room()) && (!mem || StashFits(old(State()), old(Room()), where) ==> Room() == old(Room()))
      ensures Room().sleepers == old(Room()).sleepers || Room().sleepers > 0
    {
      hide Queue.Contents, Queue.Valid;
      var me := cur;
      cur := -1;
      match where
      case Ready => ok := MakeRunnable(me, mem);
      case Asleep => ok := sleepers.Add(me, mem);
      case Dead => ok := zombies.Add(me, mem);
    }

    // The loop of scheduler, with cpu_idle taking the interrupts of idles.
    method IdleLoop(idles: seq<nat>, mem: bool) returns (ok: bool)
      requires Apart()
      modifies run, run.data, sleepers`num, sleepers.v
      ensures Apart() && fresh(Foot() - old(Foot())) && sleepers.max == old(sleepers.max)
      ensures ok <==> mem || IdleFits(old(State()), old(Room()), idles)
      ensures ok ==> State() == Idle(old(State()), idles)
      ensures NoLess(old(Room()), Room()) && (IdleFits(old(State()), old(Room()), idles) ==> Room() == old(Room()))
    {
      hide Queue.Contents, Queue.Valid, PtrArray.Contents, PtrArray.Valid, Idle, Wake, IdleFits, WakeFits;
      ghost var y, c := State(), Room();
      ghost var fits := IdleFits(y, c, idles);
      var j := 0;
      var empty := run.Empty();
      assert idles[0..] == idles;
      while empty && j < |idles|
        invariant Apart() && 0 <= j <= |idles| && fresh(Foot() - old(Foot())) && sleepers.v == old(sleepers.v)
        invariant (empty <==> State().run == []) && Idle(State(), idles[j..]) == Idle(y, idles)
        invariant NoLess(c, Room()) && sleepers.max == old(sleepers.max)
        invariant (!mem || fits ==> Room() == c) && (!mem || fits ==> (IdleFits(State(), c, idles[j..]) <==> fits))
        decreases |idles| - j
      {
        IdleNext(State(), idles, j);
        IdleFitsNext(State(), c, idles, j);
        ok := Wakeup(idles[j], mem);
        if !ok {
          return;
        }
        j := j + 1;
        empty := run.Empty();
      }
      IdleOver(State(), idles[j..]);
      IdleFitsOver(State(), c, idles[j..]);
      ok := true;
    }

    // scheduler: the next thread to run, or -1 if the machine still idles once the
    // interrupts of idles have come.
    method Scheduler(idles: seq<nat>, mem: bool) returns (ok: bool, t: int)
      requires Apart()
      modifies run, run.data, sleepers`num, sleepers.v
      ensures Apart() && fresh(Foot() - old(Foot())) && sleepers.max == old(sleepers.max)
      ensures ok <==> mem || IdleFits(old(State()), old(Room()), idles)
      ensures ok ==> Picked(Idle(old(State()), idles), State(), t)
      ensures NoLess(old(Room()), Room()) && (IdleFits(old(State()), old(Room()), idles) ==> Room() == old(Room()))
      ensures Room().zombies == old(Room()).zombies
    {
      hide Queue.Contents, Queue.Valid, PtrArray.Contents, PtrArray.Valid, Idle, IdleFits;
      ok := IdleLoop(idles, mem);
      if !ok {
        return false, -1;
      }
      var empty := run.Empty();
      if empty {
        return true, -1;
      }
      t := run.Remhead();
    }

    // The end of mi_switch: thread t runs. If it has run before, it destroys the dead.
    method Install(t: nat)
      requires Apart() && t !in zombies.Contents()
      modifies this, zombies
      ensures Apart() && fresh(Foot() - old(Foot())) && numthreads == old(numthreads)
      ensures State() == old(State()).(cur := t, addr := old(addr)[t := 0], started := old(started) + {t},
                zombies := if t in old(started) then [] else old(State()).zombies)
      ensures Room() == if t in old(started) && old(Room()).zombies > 16 then old(Room()).(zombies := 0) else old(Room())
    {
      hide Queue.Contents, Queue.Valid, PtrArray.Contents, PtrArray.Valid;
      cur := t;
      addr := addr[t := 0];
      if t in started {
        Exorcise();
      }
      started := started + {t};
    }

    // The second half of mi_switch, also what an idle machine goes on with.
    method Resume(idles: seq<nat>, mem: bool) returns (out: Outcome)
      requires Valid() && cur == -1
      modifies this, run, run.data, sleepers`num, sleepers.v, zombies
      ensures Apart() && fresh(Foot() - old(Foot())) && NoLess(old(Room()), Room())
      ensures out != OutOfMemory <==> mem || IdleFits(old(State()), old(Room()), idles)
      ensures out != OutOfMemory ==> Valid() && State() == Schedule(old(State()), idles)
      ensures IdleFits(old(State()), old(Room()), idles) ==> Room() == Exorcised(Idle(old(State()), idles), old(Room()))
      ensures out == Running <==> out != OutOfMemory && cur >= 0
    {
      hide Queue.Contents, Queue.Valid, PtrArray.Contents, PtrArray.Valid, Idle, Placed, Alive, IdleFits, Provided;
      ghost var y, c := State(), Room();
      IdleKeeps(y, idles);
      DispatchKeeps(Idle(y, idles));
      var ok, t := Scheduler(idles, mem);
      if !ok {
        return OutOfMemory;
      }
      ProvidedStays(y.numthreads, y.numthreads, c, Room());
      if t == -1 {
        return Idling;
      }
      Install(t);
      ProvidedStays(y.numthreads, y.numthreads, c, Room());
      return Running;
    }

    // Between calls: every thread in one place, and room provided for them.
    ghost predicate Valid()
      reads this, run, run.data, sleepers, sleepers.v, zombies, zombies.v
    {
      Apart() && Placed(State()) && Provided(numthreads, Room())
    }

    // mi_switch, for a running thread.
    method MiSwitch(where: Where, idles: seq<nat>, mem: bool) returns (out: Outcome)
      requires Apart() && cur >= 0 && Placed(Stash(State(), where)) && Provided(numthreads, Room())
      modifies this, run, run.data, sleepers, sleepers.v, zombies, zombies.v
      ensures Apart() && fresh(Foot() - old(Foot())) && NoLess(old(Room()), Room())
      ensures out != OutOfMemory <==> mem || SwitchFits(old(State()), old(Room()), where, idles)
      ensures out != OutOfMemory ==> Valid() && State() == Schedule(Stash(old(State()), where), idles)
      ensures SwitchFits(old(State()), old(Room()), where, idles) ==> Room() == Exorcised(Idle(Stash(old(State()), where), idles), old(Room()))
      ensures out == Running <==> out != OutOfMemory && cur >= 0
    {
      hide Queue.Contents, Queue.Valid, PtrArray.Contents, PtrArray.Valid, Placed, Idle, Dispatch, StashFits, IdleFits, Provided, Exorcised;
      ghost var c := Room();
      var ok := StashCurrent(where, mem);
      if !ok {
        return OutOfMemory;
      }
      ProvidedStays(numthreads, numthreads, c, Room());
      out := Resume(idles, mem);
    }

    // thread_yield; from the idle loop it does nothing.
    method Yield(idles: seq<nat>, mem: bool) returns (out: Outcome)
      requires Valid()
      modifies this, run, run.data, sleepers, sleepers.v, zombies, zombies.v
      ensures Apart() && fresh(Foot() - old(Foot())) && NoLess(old(Room()), Room())
      ensures out == OutOfMemory <==> !mem && YieldShort(old(State()), old(Room()))
      ensures out != OutOfMemory ==> Valid() && State() == YieldSys(old(State()), idles)
      ensures old(cur) >= 0 && !YieldShort(old(State()), old(Room())) ==> Room() == Exorcised(Stash(old(State()), Ready), old(Room()))
    {
      hide Queue.Contents, Queue.Valid, PtrArray.Contents, PtrArray.Valid, Placed, Schedule, Provided, Exorcised, StashFits, IdleFits;
      CurrentOk(State());
      YieldFits(State(), Room(), idles);
      if cur == -1 {
        return Idling;
      }
      StashKeeps(State(), Ready);
      out := MiSwitch(Ready, idles, mem);
    }

    // thread_sleep
    method Sleep(a: nat, idles: seq<nat>, mem: bool) returns (out: Outcome)
      requires Valid() && cur >= 0
      modifies this, run, run.data, sleepers, sleepers.v, zombies, zombies.v
      ensures Apart() && fresh(Foot() - old(Foot())) && NoLess(old(Room()), Room())
      ensures out != OutOfMemory <==> mem || SwitchFits(Addressed(old(State()), a), old(Room()), Asleep, idles)
      ensures out != OutOfMemory ==> Valid() && State() == SleepSys(old(State()), a, idles)
      ensures out != OutOfMemory ==> SleepsUnless(State(), old(cur), a, a in idles)
      ensures out == OutOfMemory && old(Room()).sleepers > 0 ==> !IdleFits(Stash(Addressed(old(State()), a), Asleep), old(Room()), idles)
    {
      hide Queue.Contents, Queue.Valid, PtrArray.Contents, PtrArray.Valid, Placed, Schedule, Provided, Exorcised, StashFits, IdleFits,
        SleepsUnless;
      SleepPuts(State(), a, idles);
      AddrKeeps(State(), addr[cur := a]);
      addr := addr[cur := a];
      if Room().sleepers > 0 { SleepNeedsNone(State(), Room()); }
      StashKeeps(State(), Asleep);
      out := MiSwitch(Asleep, idles, mem);
    }

    // thread_exit: the thread never runs again.
    method Exit(idles: seq<nat>, mem: bool) returns (out: Outcome)
      requires Valid() && cur >= 0
      modifies this, run, run.data, sleepers, sleepers.v, zombies, zombies.v
      ensures Apart() && fresh(Foot() - old(Foot())) && NoLess(old(Room()), Room())
      ensures out != OutOfMemory <==> mem || SwitchFits(old(State()), old(Room()), Dead, idles)
      ensures out != OutOfMemory ==> Valid() && State() == ExitSys(old(State()), idles)
    {
      hide Queue.Contents, Queue.Valid, PtrArray.Contents, PtrArray.Valid, Placed, Schedule, Provided, Exorcised, StashFits, IdleFits;
      StashKeeps(State(), Dead);
      ThreadsLeft(State());
      ProvidedStays(numthreads, numthreads - 1, Room(), Room());
      CountFits(State(), Room(), numthreads - 1, idles);
      assert numthreads > 0;
      numthreads := numthreads - 1;
      out := MiSwitch(Dead, idles, mem);
    }

    // The preallocation of thread_fork; mem says which allocations succeed. The arrays
    // are allocated anew every time, the ring only to grow.
    method Prepare(n: nat, mem: (bool, bool, bool)) returns (ok: bool)
      requires Apart()
      modifies run, sleepers, zombies
      ensures Apart() && State() == old(State()) && fresh(Foot() - old(Foot()))
      ensures ok <==> mem.0 && mem.1 && (mem.2 || n <= old(run.size))
      ensures run.data == old(run.data) || fresh(run.data)
      ensures NoLess(old(Room()), Room()) && (ok ==> run.size >= n && sleepers.max >= n && zombies.max >= n)
      ensures (n <= old(run.size) ==> run.size == old(run.size)) && (Room().sleepers == old(Room()).sleepers || Room().sleepers > 0)
    {
      hide Queue.Contents, Queue.Valid, PtrArray.Contents;
      ok := sleepers.Preallocate(n, mem.0);
      if ok {
        ok := zombies.Preallocate(n, mem.1);
      }
      if ok {
        ok := run.Preallocate(n, mem.2);
      }
    }

    // thread_fork of thread t: space first, then the run queue, which then never needs
    // memory. A fork that fails leaves no trace.
    method ForkThread(t: nat, mem: (bool, bool, bool), more: bool) returns (ok: bool)
      requires Valid() && cur >= 0 && t !in Alive(State()) && t !in State().zombies
      modifies this`numthreads, run, run.data, sleepers, zombies
      ensures Valid() && fresh(Foot() - old(Foot())) && NoLess(old(Room()), Room())
      ensures ok <==> mem.0 && mem.1 && (mem.2 || old(numthreads) + 1 <= old(run.size))
      ensures State() == if ok then Fork(old(State()), t) else old(State())
      ensures ok ==> Room().sleepers >= numthreads && Room().zombies >= numthreads
      ensures old(numthreads) + 1 <= old(run.size) ==> run.size == old(run.size)
    {
      hide Queue.Contents, Queue.Valid, PtrArray.Contents, PtrArray.Valid, Placed, Alive;
      ghost var y, c := State(), Room();
      ForkKeeps(y, t);
      ThreadsLeft(y);
      ok := Prepare(numthreads + 1, mem);
      ProvidedStays(numthreads, numthreads, c, Room());
      if !ok {
        return;
      }
      ForkNeedsNone(y, run.size);
      ok := MakeRunnable(t, more);
      numthreads := numthreads + 1;
    }
  }
}
