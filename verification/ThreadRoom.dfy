// How much the run queue and the arrays of threads hold before they need memory, and
// what the preallocation of thread_fork guarantees of that.
module ThreadRoom {
  import opened ThreadState

  // Entries the run queue, the sleepers and the zombies hold without growing.
  datatype Caps = Caps(run: nat, sleepers: nat, zombies: nat)

  // ---- Which calls fit ----

  // mi_switch adds the running thread to its list.
  predicate StashFits(y: Sys, c: Caps, where: Where) {
    match where
    case Ready => |y.run| < c.run
    case Asleep => |y.sleepers| < c.sleepers
    case Dead => |y.zombies| < c.zombies
  }

  // thread_wakeup queues everyone asleep on a.
  predicate WakeFits(y: Sys, c: Caps, a: nat) {
    |y.run| + |Matching(y.sleepers, y.addr, a)| <= c.run
  }

  // The idle loop: every wakeup up to the first that finds a thread.
  predicate IdleFits(y: Sys, c: Caps, idles: seq<nat>)
    decreases |idles|
  {
    y.run != [] || idles == [] || (WakeFits(y, c, idles[0]) && IdleFits(Wake(y, idles[0]), c, idles[1..]))
  }

  predicate SwitchFits(y: Sys, c: Caps, where: Where, idles: seq<nat>) {
    StashFits(y, c, where) && IdleFits(Stash(y, where), c, idles)
  }

  // exorcise, if the thread about to run has run before, may give the zombies' storage back.
  function Exorcised(y: Sys, c: Caps): Caps {
    if y.run != [] && y.run[0] in y.started && c.zombies > 16 then c.(zombies := 0) else c
  }

  // ---- What thread_fork provides ----

  // A ring with a slot for every thread, and sleepers with an entry for every thread
  // once any was ever needed.
  predicate Provided(n: int, c: Caps) {
    n <= c.run + 1 && (n <= c.sleepers || (c.sleepers == 0 && n <= 1))
  }

  // The storage a call leaves: no smaller, but for the zombies'.
  predicate NoLess(c: Caps, c': Caps) {
    c'.run >= c.run && c'.sleepers >= c.sleepers
  }

  lemma ProvidedStays(n: int, m: int, c: Caps, c': Caps)
    requires Provided(n, c) && m <= n && NoLess(c, c') && (c'.sleepers == c.sleepers || c'.sleepers >= 1)
    ensures Provided(m, c')
  {
  }

  // A running thread that wakes others never needs memory.
  lemma WakeNeedsNone(y: Sys, c: Caps, a: nat)
    requires Placed(y) && Provided(y.numthreads, c) && y.cur >= 0
    ensures WakeFits(y, c, a)
  {
    hide Matching, Others;
    SplitAll(y.sleepers, y.addr, a);
  }

  // A thread going to sleep never needs memory once a thread was forked.
  lemma SleepNeedsNone(y: Sys, c: Caps)
    requires Placed(y) && Provided(y.numthreads, c) && y.cur >= 0 && c.sleepers > 0
    ensures StashFits(y, c, Asleep)
  {
  }

  // A thread that yields needs memory exactly when there are as many threads as the ring
  // has slots and all the others are queued: the ring holds one entry less.
  lemma YieldNeeds(y: Sys, c: Caps)
    requires Placed(y) && Provided(y.numthreads, c) && y.cur >= 0
    ensures StashFits(y, c, Ready) <==> !(y.numthreads == c.run + 1 && y.sleepers == [])
  {
  }

  // An idle machine needs memory exactly when there are as many threads as the ring has
  // slots and one interrupt wakes them all.
  lemma IdleWakeNeeds(y: Sys, c: Caps, a: nat)
    requires Placed(y) && Provided(y.numthreads, c) && y.cur == -1 && y.run == []
    ensures WakeFits(y, c, a) <==> !(y.numthreads == c.run + 1 && forall t :: t in y.sleepers ==> AddrOf(y.addr, t) == a)
  {
    hide Matching, Others, AddrOf;
    var s := y.sleepers;
    SplitAll(s, y.addr, a);
    SplitMembers(s, y.addr, a);
    var o := Others(s, y.addr, a);
    if o != [] { assert o[0] in o && o[0] in s; }
    if !(forall t :: t in s ==> AddrOf(y.addr, t) == a) {
      var t :| t in s && AddrOf(y.addr, t) != a;
      assert t in o;
    }
  }

  // The new thread of a fork fits in the ring once that has a slot for every thread.
  lemma ForkNeedsNone(y: Sys, size: nat)
    requires Placed(y) && y.cur >= 0 && y.numthreads + 1 <= size
    ensures |y.run| < size - 1
  {
  }

  // The running thread with a sleep address.
  function Addressed(y: Sys, a: nat): Sys {
    if y.cur >= 0 then y.(addr := y.addr[y.cur := a]) else y
  }

  // A yield that would need memory.
  predicate YieldShort(y: Sys, c: Caps) {
    y.cur >= 0 && y.numthreads == c.run + 1 && y.sleepers == []
  }

  lemma YieldFits(y: Sys, c: Caps, idles: seq<nat>)
    requires Placed(y) && Provided(y.numthreads, c)
    ensures y.cur >= 0 ==> (SwitchFits(y, c, Ready, idles) <==> !YieldShort(y, c))
    ensures y.cur >= 0 ==> Idle(Stash(y, Ready), idles) == Stash(y, Ready)
  {
    if y.cur >= 0 { YieldNeeds(y, c); }
  }

  // What fits does not depend on the count of threads.
  lemma {:induction false} CountFits(y: Sys, c: Caps, n: int, idles: seq<nat>)
    ensures SwitchFits(y.(numthreads := n), c, Dead, idles) <==> SwitchFits(y, c, Dead, idles)
  {
    IdleCount(Stash(y, Dead), c, n, idles);
    assert Stash(y.(numthreads := n), Dead) == Stash(y, Dead).(numthreads := n);
  }

  lemma {:induction false} IdleCount(y: Sys, c: Caps, n: int, idles: seq<nat>)
    ensures IdleFits(y.(numthreads := n), c, idles) <==> IdleFits(y, c, idles)
    decreases |idles|
  {
    if y.run == [] && idles != [] {
      assert Wake(y.(numthreads := n), idles[0]) == Wake(y, idles[0]).(numthreads := n);
      IdleCount(Wake(y, idles[0]), c, n, idles[1..]);
    }
  }

  // ---- Steps of the loops ----

  lemma IdleFitsOver(y: Sys, c: Caps, idles: seq<nat>)
    requires y.run != [] || idles == []
    ensures IdleFits(y, c, idles)
  {
  }

  lemma IdleFitsNext(y: Sys, c: Caps, idles: seq<nat>, j: nat)
    requires j < |idles| && y.run == []
    ensures IdleFits(y, c, idles[j..]) <==> WakeFits(y, c, idles[j]) && IdleFits(Wake(y, idles[j]), c, idles[j + 1..])
  {
    assert idles[j..][1..] == idles[j + 1..];
  }

  // Fewer sleepers match among the first k than among all, if the k-th matches too.
  lemma {:induction false} MatchingMore(s: seq<nat>, addr: map<nat, nat>, a: nat, k: nat)
    requires k < |s| && AddrOf(addr, s[k]) == a
    ensures |Matching(s[..k], addr, a)| < |Matching(s, addr, a)|
    decreases |s|
  {
    hide AddrOf;
    var n := |s| - 1;
    if k < n {
      MatchingMore(s[..n], addr, a, k);
      assert s[..n][..k] == s[..k];
    }
  }
}
