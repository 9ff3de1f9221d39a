// Runs of the thread system in which preallocation was not enough.
module ThreadShortage {
  import opened Chains
  import opened ThreadState
  import opened ThreadRoom
  import opened Threads

  // Threads a, a + 1, ..., b - 1.
  function Row(a: nat, b: nat): (s: seq<nat>)
    requires a <= b
    ensures |s| == b - a && forall i :: 0 <= i < |s| ==> s[i] == a + i
  {
    seq<nat>(b - a, i requires 0 <= i < b - a => a + i)
  }

  // The boot thread, running, has forked n threads that have not run.
  function Forked(n: nat): Sys {
    Sys(0, Row(1, n + 1), [], [], n + 1, map[], {0})
  }

  lemma ForkedNext(n: nat)
    ensures Forked(n + 1) == ThreadState.Fork(Forked(n), n + 1)
    ensures n + 1 !in Alive(Forked(n)) && n + 1 !in Forked(n).zombies && Forked(n).cur == 0 && Forked(n).numthreads == n + 1
  {
    assert Row(1, n + 2) == Row(1, n + 1) + [n + 1];
  }

  lemma ForkedNone()
    ensures Forked(0) == Sys(0, [], [], [], 1, map[], {0})
  {
  }

  lemma Seen(sys: ThreadSystem)
    requires sys.Apart()
    ensures sys.State().cur == sys.cur && sys.State().numthreads == sys.numthreads
  {
  }

  method ForkMany(n: nat) returns (sys: ThreadSystem)
    requires 0 < n < 32
    ensures fresh(sys) && fresh(sys.Foot()) && sys.Valid() && sys.State() == Forked(n)
    ensures sys.Room().run == 31 && sys.Room().zombies >= n + 1 && sys.Room().sleepers >= n + 1
  {
    hide Placed, Alive, ThreadState.Fork, Provided, ThreadSystem.State, ThreadSystem.Apart, Forked;
    sys := new ThreadSystem(0);
    ForkedNone();
    Seen(sys);
    for i := 0 to n
      invariant fresh(sys) && fresh(sys.Foot()) && sys.Valid() && sys.State() == Forked(i) && sys.Room().run == 31
      invariant sys.numthreads == i + 1 && (i > 0 ==> sys.Room().zombies >= i + 1 && sys.Room().sleepers >= i + 1)
    {
      ForkedNext(i);
      Seen(sys);
      var ok := sys.ForkThread(i + 1, (true, true, true), true);
      ForkedNext(i + 1);
      Seen(sys);
    }
  }

  // Boot and 31 forks fill the ring of 32 slots. With no memory the next thread_yield
  // fails the assertion in mi_switch.
  method YieldFails() returns (out: Outcome)
    ensures out == OutOfMemory
  {
    hide Placed, Provided;
    var sys := ForkMany(31);
    out := sys.Yield([], false);
  }

  // Thread j of n + 1 runs after j yields, each to a thread that had not run.
  ghost predicate Turned(y: Sys, n: nat, j: nat) {
    && j <= n && y.cur == j && y.run == Row(j + 1, n + 1) + Row(0, j) && y.sleepers == [] && y.zombies == []
    && y.numthreads == n + 1 && y.started == UpTo(j + 1)
  }

  lemma ForkedTurned(n: nat)
    ensures Turned(Forked(n), n, 0)
  {
    assert UpTo(1) == {0};
  }

  lemma TurnedNext(y: Sys, n: nat, j: nat)
    requires Turned(y, n, j) && j < n
    ensures Turned(YieldSys(y, []), n, j + 1)
    ensures forall c: Caps :: Exorcised(Stash(y, Ready), c) == c
  {
    var z := Stash(y, Ready);
    RowTurned(n, j);
    assert z.run == Row(j + 1, n + 1) + Row(0, j) + [j];
    assert j + 1 !in y.started;
    hide Row, UpTo;
    assert YieldSys(y, []) == Dispatch(z);
  }

  lemma RowTurned(n: nat, j: nat)
    requires j < n
    ensures var q := Row(j + 1, n + 1) + Row(0, j) + [j];
            |q| > 0 && q[0] == j + 1 && q[1..] == Row(j + 2, n + 1) + Row(0, j + 1)
    ensures UpTo(j + 2) == UpTo(j + 1) + {j + 1}
  {
    assert Row(0, j + 1) == Row(0, j) + [j];
    assert Row(j + 1, n + 1)[1..] == Row(j + 2, n + 1);
  }

  // Back to the boot thread, which has run: the dead are destroyed, and with them the
  // storage for the next ones.
  lemma TurnedRound(y: Sys, n: nat)
    requires Turned(y, n, n) && n > 0
    ensures YieldSys(y, []).cur == 0 && YieldSys(y, []).zombies == []
    ensures forall c: Caps :: c.zombies > 16 ==> Exorcised(Stash(y, Ready), c) == c.(zombies := 0)
  {
    assert Row(n + 1, n + 1) == [];
    var z := Stash(y, Ready);
    assert z.run[0] == 0;
  }

  // One turn: thread j yields to thread j + 1, which has not run.
  method TakeTurn(sys: ThreadSystem, n: nat, j: nat)
    requires sys.Valid() && Turned(sys.State(), n, j) && j < n < 31 && sys.Room().run == 31
    modifies sys, sys.run, sys.run.data, sys.sleepers, sys.sleepers.v, sys.zombies, sys.zombies.v
    ensures sys.Valid() && fresh(sys.Foot() - old(sys.Foot())) && Turned(sys.State(), n, j + 1) && sys.Room() == old(sys.Room())
  {
    hide Placed, Provided, YieldSys, Exorcised, Stash, IdleFits, Turned, ThreadSystem.State, ThreadSystem.Apart;
    TurnedNext(sys.State(), n, j);
    TurnedShape(sys.State(), n, j);
    Seen(sys);
    var out := sys.Yield([], false);
  }

  // The boot thread is back, and tries to exit.
  method LastTurn(sys: ThreadSystem, n: nat) returns (out: Outcome)
    requires sys.Valid() && Turned(sys.State(), n, n) && 0 < n < 31 && sys.Room().run == 31 && sys.Room().zombies > 16
    modifies sys, sys.run, sys.run.data, sys.sleepers, sys.sleepers.v, sys.zombies, sys.zombies.v
    ensures out == OutOfMemory
  {
    hide Placed, Provided, YieldSys, Exorcised, Stash, IdleFits, Turned, ThreadSystem.State, ThreadSystem.Apart;
    TurnedRound(sys.State(), n);
    TurnedShape(sys.State(), n, n);
    Seen(sys);
    out := sys.Yield([], false);
    Seen(sys);
    out := sys.Exit([], false);
  }

  // Seventeen threads take a turn each. Back in the boot thread, with no memory,
  // thread_exit fails the assertion in mi_switch, though room for every thread to be a
  // zombie was preallocated.
  method ExitFails() returns (out: Outcome)
    ensures out == OutOfMemory
  {
    hide Turned, Forked, Placed, Provided, ThreadSystem.State, ThreadSystem.Apart;
    var sys := ForkMany(16);
    ForkedTurned(16);
    ghost var c := sys.Room();
    for j := 0 to 16
      invariant fresh(sys) && fresh(sys.Foot()) && sys.Valid() && Turned(sys.State(), 16, j) && sys.Room() == c
    {
      TakeTurn(sys, 16, j);
    }
    out := LastTurn(sys, 16);
  }

  lemma TurnedShape(y: Sys, n: nat, j: nat)
    requires Turned(y, n, j)
    ensures y.cur >= 0 && y.numthreads == n + 1
  {
  }
}
