// Threads and where they are, as values: running, queued to run, asleep, or dead.
module ThreadState {

  // cur is -1 while the scheduler looks for a thread; addr is t_sleepaddr, 0 for NULL;
  // started are the threads that have run.
  datatype Sys = Sys(cur: int, run: seq<nat>, sleepers: seq<nat>, zombies: seq<nat>, numthreads: int,
                     addr: map<nat, nat>, started: set<nat>)

  function AddrOf(addr: map<nat, nat>, t: nat): nat {
    if t in addr then addr[t] else 0
  }

  function Current(y: Sys): seq<nat> {
    if y.cur >= 0 then [y.cur] else []
  }

  // The threads that are not dead, place by place.
  function Alive(y: Sys): seq<nat> {
    Current(y) + y.run + y.sleepers
  }

  // All threads there are, with how often they are anywhere.
  function Everyone(y: Sys): multiset<nat> {
    multiset(Current(y)) + multiset(y.run) + multiset(y.sleepers) + multiset(y.zombies)
  }

  // Every thread is in one place only, and numthreads counts those that are not dead.
  ghost predicate Placed(y: Sys) {
    (forall t :: Everyone(y)[t] <= 1) && y.numthreads == |Alive(y)| && y.cur >= -1
  }

  // Running, once in the run queue, or once asleep: exactly one of them.
  lemma OnePlace(y: Sys, t: nat)
    requires Placed(y) && t in Alive(y)
    ensures t !in y.zombies
    ensures (if y.cur == t then 1 else 0) + multiset(y.run)[t] + multiset(y.sleepers)[t] == 1
  {
    assert Everyone(y)[t] <= 1;
    assert t in Current(y) || t in multiset(y.run) || t in multiset(y.sleepers);
    assert t in y.zombies ==> t in multiset(y.zombies);
  }

  // ---- The threads asleep on an address ----

  // Those of s asleep on a, in order, and the others, in order.
  function Matching(s: seq<nat>, addr: map<nat, nat>, a: nat): seq<nat> {
    if s == [] then []
    else Matching(s[..|s| - 1], addr, a) + if AddrOf(addr, s[|s| - 1]) == a then [s[|s| - 1]] else []
  }

  function Others(s: seq<nat>, addr: map<nat, nat>, a: nat): seq<nat> {
    if s == [] then []
    else Others(s[..|s| - 1], addr, a) + if AddrOf(addr, s[|s| - 1]) == a then [] else [s[|s| - 1]]
  }

  // The threads moved are exactly those asleep on the address.
  lemma {:induction false} SplitMembers(s: seq<nat>, addr: map<nat, nat>, a: nat)
    ensures forall t :: t in Matching(s, addr, a) <==> t in s && AddrOf(addr, t) == a
    ensures forall t :: t in Others(s, addr, a) <==> t in s && AddrOf(addr, t) != a
  {
    hide AddrOf;
    if s != [] {
      SplitMembers(s[..|s| - 1], addr, a);
      assert s == s[..|s| - 1] + [s[|s| - 1]];
    }
  }

  lemma OneMore(s: seq<nat>, x: nat)
    ensures multiset(s + [x]) == multiset(s)[x := multiset(s)[x] + 1]
  {
  }

  // The last of s goes to one side.
  lemma SplitLast(r: seq<nat>, x: nat, addr: map<nat, nat>, a: nat)
    ensures Matching(r + [x], addr, a) == Matching(r, addr, a) + if AddrOf(addr, x) == a then [x] else []
    ensures Others(r + [x], addr, a) == Others(r, addr, a) + if AddrOf(addr, x) == a then [] else [x]
  {
    assert (r + [x])[..|r|] == r;
  }

  // Nobody is lost and nobody is doubled.
  lemma {:induction false} SplitAll(s: seq<nat>, addr: map<nat, nat>, a: nat)
    ensures multiset(s) == multiset(Matching(s, addr, a)) + multiset(Others(s, addr, a))
    ensures |s| == |Matching(s, addr, a)| + |Others(s, addr, a)|
  {
    if s == [] {
      assert Matching(s, addr, a) == [] && Others(s, addr, a) == [];
    } else {
      hide Matching, Others, AddrOf;
      var r, x := s[..|s| - 1], s[|s| - 1];
      assert s == r + [x];
      SplitAll(r, addr, a);
      SplitLast(r, x, addr, a);
      OneMore(r, x);
      OneMore(if AddrOf(addr, x) == a then Matching(r, addr, a) else Others(r, addr, a), x);
    }
  }

  // ---- Steps ----

  datatype Where = Ready | Asleep | Dead

  // The first half of mi_switch: the running thread goes on its list.
  function Stash(y: Sys, where: Where): Sys {
    if y.cur < 0 then y
    else match where
      case Ready => y.(cur := -1, run := y.run + [y.cur])
      case Asleep => y.(cur := -1, sleepers := y.sleepers + [y.cur])
      case Dead => y.(cur := -1, zombies := y.zombies + [y.cur])
  }

  // thread_wakeup
  function Wake(y: Sys, a: nat): Sys {
    y.(run := y.run + Matching(y.sleepers, y.addr, a), sleepers := Others(y.sleepers, y.addr, a))
  }

  // The idle loop of scheduler: interrupts come and wake threads on these addresses
  // until one can run.
  function Idle(y: Sys, idles: seq<nat>): Sys
    decreases |idles|
  {
    if y.run != [] || idles == [] then y else Idle(Wake(y, idles[0]), idles[1..])
  }

  // The head of the run queue runs. A thread that ran before first destroys the dead.
  function Dispatch(y: Sys): Sys {
    if y.run == [] then y
    else
      var t := y.run[0];
      y.(cur := t, run := y.run[1..], addr := y.addr[t := 0], started := y.started + {t},
         zombies := if t in y.started then [] else y.zombies)
  }

  // scheduler and the end of mi_switch.
  function Schedule(y: Sys, idles: seq<nat>): Sys {
    Dispatch(Idle(y, idles))
  }

  function Fork(y: Sys, t: nat): Sys {
    y.(run := y.run + [t], numthreads := y.numthreads + 1)
  }

  // ---- What every step keeps ----

  lemma Rearranged(y: Sys, y': Sys)
    requires Placed(y) && Everyone(y') <= Everyone(y) && y'.numthreads == |Alive(y')| && y'.cur >= -1
    ensures Placed(y')
  {
    forall t ensures Everyone(y')[t] <= 1 { assert Everyone(y)[t] <= 1; }
  }

  lemma StashKeeps(y: Sys, where: Where)
    requires Placed(y) && y.cur >= 0
    ensures where != Dead ==> Placed(Stash(y, where))
    ensures where == Dead ==> Placed(Stash(y, where).(numthreads := y.numthreads - 1))
  {
    var y' := Stash(y, where);
    assert Everyone(y') == Everyone(y);
    if where == Dead { Rearranged(y, y'.(numthreads := y.numthreads - 1)); } else { Rearranged(y, y'); }
  }

  lemma WakeKeeps(y: Sys, a: nat)
    requires Placed(y)
    ensures Placed(Wake(y, a)) && forall t :: t in Alive(Wake(y, a)) <==> t in Alive(y)
  {
    SplitMembers(y.sleepers, y.addr, a);
    SplitAll(y.sleepers, y.addr, a);
    hide Matching, Others;
    Rearranged(y, Wake(y, a));
  }

  lemma {:induction false} IdleKeeps(y: Sys, idles: seq<nat>)
    requires Placed(y)
    ensures Placed(Idle(y, idles)) && forall t :: t in Alive(Idle(y, idles)) <==> t in Alive(y)
    ensures Idle(y, idles).cur == y.cur && Idle(y, idles).zombies == y.zombies && Idle(y, idles).numthreads == y.numthreads
    ensures Idle(y, idles).started == y.started && Idle(y, idles).addr == y.addr
    decreases |idles|
  {
    hide Placed, Alive;
    if y.run == [] && idles != [] {
      WakeKeeps(y, idles[0]);
      IdleKeeps(Wake(y, idles[0]), idles[1..]);
    }
  }

  lemma DispatchKeeps(y: Sys)
    requires Placed(y) && y.cur == -1
    ensures Placed(Dispatch(y)) && forall t :: t in Alive(Dispatch(y)) <==> t in Alive(y)
    ensures y.run != [] ==> Dispatch(y).cur !in y.zombies
  {
    if y.run != [] {
      var y' := Dispatch(y);
      assert y.run == [y.run[0]] + y.run[1..];
      assert Alive(y') == Alive(y);
      OnePlace(y, y.run[0]);
      Rearranged(y, y');
    }
  }

  lemma ForkKeeps(y: Sys, t: nat)
    requires Placed(y) && t !in Alive(y) && t !in y.zombies
    ensures Placed(Fork(y, t)) && forall u :: u in Alive(Fork(y, t)) <==> u in Alive(y) || u == t
  {
    var y' := Fork(y, t);
    assert Everyone(y') == Everyone(y) + multiset{t};
    assert Everyone(y)[t] == 0;
    forall u ensures Everyone(y')[u] <= 1 { assert Everyone(y)[u] <= 1; }
  }

  // ---- The calls ----

  function YieldSys(y: Sys, idles: seq<nat>): Sys {
    if y.cur < 0 then y else Schedule(Stash(y, Ready), idles)
  }

  function SleepSys(y: Sys, a: nat, idles: seq<nat>): Sys {
    if y.cur < 0 then y else Schedule(Stash(y.(addr := y.addr[y.cur := a]), Asleep), idles)
  }

  function ExitSys(y: Sys, idles: seq<nat>): Sys {
    Schedule(Stash(y.(numthreads := y.numthreads - 1), Dead), idles)
  }

  // The first thread, running.
  lemma BootPlaced(boot: nat)
    ensures Placed(Sys(boot, [], [], [], 1, map[], {boot}))
  {
    assert Everyone(Sys(boot, [], [], [], 1, map[], {boot})) == multiset{boot};
  }

  lemma CurrentOk(y: Sys)
    requires Placed(y)
    ensures y.cur >= -1
  {
  }

  lemma AddrKeeps(y: Sys, addr: map<nat, nat>)
    requires Placed(y)
    ensures Placed(y.(addr := addr))
  {
    assert Everyone(y.(addr := addr)) == Everyone(y);
  }

  lemma ThreadsLeft(y: Sys)
    requires Placed(y)
    ensures y.numthreads >= 0 && (y.cur >= 0 ==> y.numthreads > 0)
  {
  }

  // ---- Nobody asleep on an address ----

  ghost predicate NoSleeper(y: Sys, a: nat) {
    forall t :: t in y.sleepers ==> AddrOf(y.addr, t) != a
  }

  lemma WakeClears(y: Sys, a: nat)
    ensures NoSleeper(Wake(y, a), a)
    ensures forall b :: NoSleeper(y, b) ==> NoSleeper(Wake(y, a), b)
  {
    SplitMembers(y.sleepers, y.addr, a);
    hide Matching, Others;
  }

  lemma {:induction false} IdleClears(y: Sys, idles: seq<nat>, a: nat)
    requires NoSleeper(y, a)
    ensures NoSleeper(Idle(y, idles), a)
    decreases |idles|
  {
    hide NoSleeper, Wake;
    if y.run == [] && idles != [] {
      WakeClears(y, idles[0]);
      IdleClears(Wake(y, idles[0]), idles[1..], a);
    }
  }

  // Scheduling puts nobody to sleep.
  lemma ScheduleClears(y: Sys, idles: seq<nat>, a: nat)
    requires NoSleeper(y, a) && a != 0
    ensures NoSleeper(Schedule(y, idles), a)
  {
    IdleClears(y, idles, a);
    hide Idle;
  }

  // A thread going to sleep on a is the only one a call adds to the sleepers on a.
  lemma SleepClears(y: Sys, b: nat, idles: seq<nat>, a: nat)
    requires NoSleeper(y, a) && a != 0 && a != b && y.cur !in y.sleepers
    ensures NoSleeper(SleepSys(y, b, idles), a)
  {
    if y.cur >= 0 {
      var z := Stash(y.(addr := y.addr[y.cur := b]), Asleep);
      assert NoSleeper(z, a);
      hide Schedule;
      ScheduleClears(z, idles, a);
    }
  }

  // ---- A thread asleep on an address ----

  predicate AsleepOn(y: Sys, t: nat, a: nat) {
    t in y.sleepers && AddrOf(y.addr, t) == a
  }

  predicate Up(y: Sys, t: nat) {
    y.cur == t || t in y.run
  }

  // t was asleep on a. It is so still unless the address is among those woken, and then it
  // is queued or runs.
  predicate SleepsUnless(y: Sys, t: nat, a: nat, woken: bool) {
    if AsleepOn(y, t, a) then true else woken && Up(y, t)
  }

  // A wakeup queues everyone asleep on the address, and nobody else stirs.
  lemma WakeSleeper(y: Sys, t: nat, a: nat, b: nat)
    requires AsleepOn(y, t, a)
    ensures if a == b then t in Wake(y, b).run else AsleepOn(Wake(y, b), t, a)
  {
    SplitMembers(y.sleepers, y.addr, b);
    hide Matching, Others, AddrOf;
  }

  lemma {:induction false} IdleSleeper(y: Sys, idles: seq<nat>, t: nat, a: nat)
    requires AsleepOn(y, t, a) || t in y.run
    ensures AsleepOn(Idle(y, idles), t, a) || t in Idle(y, idles).run
    ensures AsleepOn(y, t, a) && a !in idles ==> AsleepOn(Idle(y, idles), t, a)
    decreases |idles|
  {
    hide AddrOf, Wake;
    if y.run == [] && idles != [] {
      WakeSleeper(y, t, a, idles[0]);
      IdleSleeper(Wake(y, idles[0]), idles[1..], t, a);
    }
  }

  lemma ScheduleSleeper(y: Sys, idles: seq<nat>, t: nat, a: nat)
    requires Placed(y) && y.cur == -1 && AsleepOn(y, t, a)
    ensures SleepsUnless(Schedule(y, idles), t, a, a in idles)
  {
    IdleSleeper(y, idles, t, a);
    IdleKeeps(y, idles);
    var z := Idle(y, idles);
    hide Idle;
    if z.run != [] && t in z.sleepers {
      RunnerAwake(z, t);
    }
  }

  // The thread dispatched is not asleep.
  lemma RunnerAwake(y: Sys, t: nat)
    requires Placed(y) && y.run != [] && t in y.sleepers
    ensures y.run[0] != t
  {
    OnePlace(y, t);
    assert multiset(y.sleepers)[t] > 0 && multiset(y.run)[y.run[0]] > 0;
  }

  // After thread_sleep on a the caller is asleep on a, or an interrupt on a woke it while the
  // machine was idle.
  lemma SleepPuts(y: Sys, a: nat, idles: seq<nat>)
    requires Placed(y) && y.cur >= 0
    ensures SleepsUnless(SleepSys(y, a, idles), y.cur, a, a in idles)
  {
    var z := Stash(y.(addr := y.addr[y.cur := a]), Asleep);
    assert AsleepOn(z, y.cur, a);
    AddrKeeps(y, y.addr[y.cur := a]);
    StashKeeps(y.(addr := y.addr[y.cur := a]), Asleep);
    hide Schedule, Placed;
    ScheduleSleeper(z, idles, y.cur, a);
  }

  // The threads woken are queued in the order in which they went to sleep, and so are the
  // others left.
  lemma {:induction false} SplitJoins(s: seq<nat>, t: seq<nat>, addr: map<nat, nat>, a: nat)
    ensures Matching(s + t, addr, a) == Matching(s, addr, a) + Matching(t, addr, a)
    ensures Others(s + t, addr, a) == Others(s, addr, a) + Others(t, addr, a)
    decreases |t|
  {
    if t == [] {
      assert s + t == s;
      assert Matching(t, addr, a) == [] && Others(t, addr, a) == [];
    } else {
      var r, x := t[..|t| - 1], t[|t| - 1];
      assert s + t == (s + r) + [x] && t == r + [x];
      hide Matching, Others;
      SplitJoins(s, r, addr, a);
      SplitLast(s + r, x, addr, a);
      SplitLast(r, x, addr, a);
    }
  }

  // ---- The idle loop ----

  // The machine stays idle exactly if nobody is queued and no interrupt that comes is one
  // somebody sleeps on.
  lemma {:induction false} IdlesExactly(y: Sys, idles: seq<nat>)
    ensures Idle(y, idles).run == [] <==> y.run == [] && forall t :: t in y.sleepers ==> AddrOf(y.addr, t) !in idles
    decreases |idles|
  {
    hide AddrOf, Matching, Others;
    if y.run == [] && idles != [] {
      var a, z := idles[0], Wake(y, idles[0]);
      SplitMembers(y.sleepers, y.addr, a);
      IdlesExactly(z, idles[1..]);
      assert forall b :: b in idles <==> b == a || b in idles[1..];
      if z.run != [] {
        assert z.run[0] in z.run;
      } else {
        assert forall t :: t in y.sleepers ==> t in z.sleepers;
      }
    }
  }

  // With a thread queued no interrupt is waited for: the head runs and no sleeper stirs.
  lemma QueuedRunsAtOnce(y: Sys, idles: seq<nat>)
    requires y.run != []
    ensures var y' := Schedule(y, idles); y'.cur == y.run[0] && y'.run == y.run[1..] && y'.sleepers == y.sleepers
  {
  }

  // After the first interrupt that wakes somebody no other is waited for: those who sleep on
  // later ones sleep on.
  lemma {:induction false} FirstInterruptOnly(y: Sys, idles: seq<nat>, t: nat, i: nat)
    requires y.run == [] && t in y.sleepers && i < |idles| && exists u :: u in y.sleepers && AddrOf(y.addr, u) == idles[i]
    requires AddrOf(y.addr, t) !in idles[..i + 1]
    ensures t in Idle(y, idles).sleepers
    decreases |idles|
  {
    hide AddrOf, Matching, Others;
    var u :| u in y.sleepers && AddrOf(y.addr, u) == idles[i];
    var z := Wake(y, idles[0]);
    SplitMembers(y.sleepers, y.addr, idles[0]);
    assert idles[..i + 1] == [idles[0]] + idles[1..][..i];
    assert i == 0 ==> u in z.run;
    if z.run == [] {
      assert u in z.sleepers;
      FirstInterruptOnly(z, idles[1..], t, i - 1);
    }
  }
}
