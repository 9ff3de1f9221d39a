// The four-way intersection: cars, four quadrant locks and a gate, as a state machine.
// Locks do what their header promises: one holder at a time, released by it.
module Intersection {

  // ---- Routes ----

  // The quadrants in ring order.
  const NW: nat := 0
  const SW: nat := 1
  const SE: nat := 2
  const NE: nat := 3

  // A route crosses len quadrants along the ring from start.
  datatype Route = Route(start: nat, len: nat)

  function Quad(r: Route, k: nat): (q: nat)
    ensures q < 4
  {
    (r.start + k) % 4
  }

  ghost predicate RouteOk(r: Route) {
    r.start < 4 && 1 <= r.len <= 3
  }

  // cardirection 0..3 is north, east, south, west; turn 0..2 is right, left, straight.
  function RouteOf(direction: nat, turn: nat): (r: Route)
    requires direction < 4 && turn < 3
    ensures RouteOk(r)
  {
    Route([NW, NE, SE, SW][direction], [1, 3, 2][turn])
  }

  // The locks each of the twelve routes takes, in the order it takes them.
  function LockOrder(direction: nat, turn: nat): seq<nat>
    requires direction < 4 && turn < 3
  {
    [[[NW], [NW, SW, SE], [NW, SW]],
     [[NE], [NE, NW, SW], [NE, NW]],
     [[SE], [SE, NE, NW], [SE, NE]],
     [[SW], [SW, SE, NE], [SW, SE]]][direction][turn]
  }

  // Every route follows the ring.
  lemma RoutesFollowRing(direction: nat, turn: nat)
    requires direction < 4 && turn < 3
    ensures |LockOrder(direction, turn)| == RouteOf(direction, turn).len
    ensures forall k :: 0 <= k < |LockOrder(direction, turn)| ==> LockOrder(direction, turn)[k] == Quad(RouteOf(direction, turn), k)
  {
    if direction == 0 { if turn == 0 {} else if turn == 1 {} else {} }
    else if direction == 1 { if turn == 0 {} else if turn == 1 {} else {} }
    else if direction == 2 { if turn == 0 {} else if turn == 1 {} else {} }
    else { if turn == 0 {} else if turn == 1 {} else {} }
  }

  // ---- The machine ----

  // Where a car is in approachintersection and in the routine of its turn.
  datatype Pc =
    | Start        // about to take the gate lock
    | Gate         // has it, about to test the limit
    | Sleep        // on the gate queue
    | Woken        // woken, about to take the gate lock again
    | Recheck      // has it, about to test the limit again
    | Choose       // admitted, still holding the gate lock
    | Want(k: nat) // about to take its k-th quadrant lock
    | Got(k: nat)  // has it, about to test the quadrant's flag
    | In(k: nat)   // in the quadrant, the flag set
    | QSleep(k: nat) // on the quadrant's queue
    | Out(k: nat)  // flag clear, about to signal and release the quadrant before
    | Rel(k: nat)  // about to signal and release its last quadrant
    | Leave        // about to take the gate lock to leave
    | Exit         // has it, about to lower the limit
    | Last         // about to release it
    | Done

  // locks and temp hold a car number or -1; waits and lines are the quadrants'
  // counts and queues.
  datatype State = State(cars: seq<Pc>, temp: int, locks: seq<int>, flags: seq<bool>, limit: int,
                         count: nat, queue: seq<nat>, waits: seq<nat>, lines: seq<seq<nat>>)

  function Init(n: nat): State {
    State(seq(n, _ => Start), -1, [-1, -1, -1, -1], [false, false, false, false], 0, 0, [], [0, 0, 0, 0], [[], [], [], []])
  }

  ghost predicate Shape(r: seq<Route>, s: State) {
    && |s.cars| == |r| && |s.locks| == |s.flags| == |s.waits| == |s.lines| == 4
    && forall c :: 0 <= c < |r| ==> RouteOk(r[c])
  }

  // Only a lock that is held makes a car wait.
  predicate CanStep(r: seq<Route>, s: State, c: nat)
    requires c < |r| == |s.cars| && |s.locks| == 4
  {
    match s.cars[c]
    case Start | Woken | Leave => s.temp == -1
    case Want(k) => s.locks[Quad(r[c], k)] == -1
    case Sleep | QSleep(_) | Done => false
    case _ => true
  }

  // The signal before a quadrant lock is released: wake the first car on its queue.
  function Signal(s: State, q: nat): State
    requires q < |s.waits| && q < |s.lines|
  {
    if s.waits[q] != 0 && s.lines[q] != [] && s.lines[q][0] < |s.cars| && s.cars[s.lines[q][0]].QSleep? then
      var w := s.lines[q][0];
      s.(waits := s.waits[q := s.waits[q] - 1], lines := s.lines[q := s.lines[q][1..]], cars := s.cars[w := Want(s.cars[w].k)])
    else s
  }

  // Go to sleep at the gate: interrupts are off from the release of the lock on.
  function SleepAtGate(s: State, c: nat): State
    requires c < |s.cars|
  {
    s.(temp := -1, count := s.count + 1, queue := s.queue + [c], cars := s.cars[c := Sleep])
  }

  // limit drops and the first sleeper at the gate is woken.
  function LeaveGate(s: State, c: nat): State
    requires c < |s.cars|
  {
    var s1 := s.(limit := s.limit - 1, cars := s.cars[c := Last]);
    if s.count != 0 && s.queue != [] && s.queue[0] < |s.cars| then
      s1.(count := s.count - 1, queue := s.queue[1..], cars := s1.cars[s.queue[0] := Woken])
    else s1
  }

  // Where a car goes once its k-th flag is clear.
  function AfterIn(r: Route, k: nat): Pc {
    if k > 0 then Out(k) else if r.len > 1 then Want(1) else Rel(0)
  }

  function AfterOut(r: Route, k: nat): Pc {
    if k + 1 < r.len then Want(k + 1) else Rel(k)
  }

  // The step of car c.
  function StepOf(r: seq<Route>, s: State, c: nat): State
    requires c < |r| == |s.cars| && |s.locks| == |s.flags| == |s.waits| == |s.lines| == 4
  {
    match s.cars[c]
    case Start => s.(temp := c, cars := s.cars[c := Gate])
    case Woken => s.(temp := c, cars := s.cars[c := Recheck])
    case Gate | Recheck =>
      if s.limit > 2 then SleepAtGate(s, c) else s.(limit := s.limit + 1, cars := s.cars[c := Choose])
    case Choose => s.(temp := -1, cars := s.cars[c := Want(0)])
    case Want(k) => s.(locks := s.locks[Quad(r[c], k) := c], cars := s.cars[c := Got(k)])
    case Got(k) =>
      var q := Quad(r[c], k);
      if s.flags[q] then
        s.(locks := s.locks[q := -1], waits := s.waits[q := s.waits[q] + 1], lines := s.lines[q := s.lines[q] + [c]],
           cars := s.cars[c := QSleep(k)])
      else s.(flags := s.flags[q := true], cars := s.cars[c := In(k)])
    case In(k) => s.(flags := s.flags[Quad(r[c], k) := false], cars := s.cars[c := AfterIn(r[c], k)])
    case Out(k) =>
      var q := if k > 0 then Quad(r[c], k - 1) else 0;
      var s1 := Signal(s, q);
      s1.(locks := s1.locks[q := -1], cars := s1.cars[c := AfterOut(r[c], k)])
    case Rel(k) =>
      var s1 := Signal(s, Quad(r[c], k));
      s1.(locks := s1.locks[Quad(r[c], k) := -1], cars := s1.cars[c := Leave])
    case Leave => s.(temp := c, cars := s.cars[c := Exit])
    case Exit => LeaveGate(s, c)
    case Last => s.(temp := -1, cars := s.cars[c := Done])
    case _ => s
  }

  // ---- Counting cars ----

  function Count(cars: seq<Pc>, f: Pc -> bool): nat {
    if cars == [] then 0 else Count(cars[..|cars| - 1], f) + if f(cars[|cars| - 1]) then 1 else 0
  }

  lemma {:induction false} CountUpdate(cars: seq<Pc>, c: nat, pc: Pc, f: Pc -> bool)
    requires c < |cars|
    ensures Count(cars[c := pc], f) == Count(cars, f) + (if f(pc) then 1 else 0) - (if f(cars[c]) then 1 else 0)
  {
    var n := |cars| - 1;
    if c == n {
      assert cars[c := pc][..n] == cars[..n];
    } else {
      assert cars[c := pc][..n] == cars[..n][c := pc];
      CountUpdate(cars[..n], c, pc, f);
    }
  }

  // As many as there are distinct cars listed.
  lemma {:induction false} CountAtLeast(cars: seq<Pc>, f: Pc -> bool, who: set<nat>)
    requires forall c :: c in who ==> c < |cars| && f(cars[c])
    ensures |who| <= Count(cars, f)
  {
    if cars == [] {
      assert who == {};
    } else {
      var n := |cars| - 1;
      var rest := who - {n};
      CountAtLeast(cars[..n], f, rest);
      if n in who { assert who == rest + {n}; } else { assert who == rest; }
    }
  }

  // Cars the limit counts: from its increment to its decrement.
  predicate Admitted(pc: Pc) {
    pc.Choose? || Crossing(pc) || pc.Leave? || pc.Exit?
  }

  // Cars in the routine of their turn.
  predicate Crossing(pc: Pc) {
    pc.Want? || pc.Got? || pc.In? || pc.QSleep? || pc.Out? || pc.Rel?
  }

  // Cars woken at the gate that have not tested the limit again.
  predicate Rechecking(pc: Pc) {
    pc.Woken? || pc.Recheck?
  }

  // ---- The invariant ----

  predicate HoldsTemp(pc: Pc) {
    pc.Gate? || pc.Recheck? || pc.Choose? || pc.Exit? || pc.Last?
  }

  predicate Holds(r: Route, pc: Pc, q: nat) {
    match pc
    case Want(k) => k > 0 && q == Quad(r, k - 1)
    case QSleep(k) => k > 0 && q == Quad(r, k - 1)
    case Got(k) => q == Quad(r, k) || (k > 0 && q == Quad(r, k - 1))
    case In(k) => q == Quad(r, k) || (k > 0 && q == Quad(r, k - 1))
    case Out(k) => q == Quad(r, k) || (k > 0 && q == Quad(r, k - 1))
    case Rel(k) => q == Quad(r, k)
    case _ => false
  }

  predicate PcOk(r: Route, pc: Pc) {
    match pc
    case Want(k) => k < r.len
    case Got(k) => k < r.len
    case In(k) => k < r.len
    case Out(k) => 0 < k < r.len
    case Rel(k) => k + 1 == r.len
    case QSleep(_) => false
    case _ => true
  }

  // Car c holds the locks its place says, and no others; it is on the gate queue
  // exactly while it sleeps.
  ghost predicate CarOk(r: seq<Route>, s: State, c: nat)
    requires c < |r| == |s.cars| && |s.locks| == |s.flags| == 4
  {
    && PcOk(r[c], s.cars[c])
    && (s.temp == c <==> HoldsTemp(s.cars[c]))
    && (s.cars[c].Sleep? <==> c in s.queue)
    && (forall q :: 0 <= q < 4 ==> (s.locks[q] == c <==> Holds(r[c], s.cars[c], q)))
    && (s.cars[c].In? ==> s.flags[Quad(r[c], s.cars[c].k)])
  }

  // A quadrant's flag is set only by the car in it; nobody ever queues for one.
  ghost predicate QuadOk(r: seq<Route>, s: State, q: nat)
    requires |r| == |s.cars| && q < |s.locks| && q < |s.flags| && q < |s.waits| && q < |s.lines|
  {
    && -1 <= s.locks[q] < |s.cars| && s.waits[q] == 0 && s.lines[q] == []
    && (s.flags[q] ==> s.locks[q] >= 0 && s.cars[s.locks[q]].In? && Quad(r[s.locks[q]], s.cars[s.locks[q]].k) == q)
  }

  ghost predicate GateOk(s: State) {
    && -1 <= s.temp < |s.cars|
    && s.limit == Count(s.cars, Admitted) && s.limit <= 3
    && s.count == |s.queue| && (forall i, j :: 0 <= i < j < |s.queue| ==> s.queue[i] != s.queue[j])
    && (forall c :: c in s.queue ==> c < |s.cars|)
    && (s.queue != [] ==> s.limit + Count(s.cars, Rechecking) >= 3)
  }

  ghost predicate Inv(r: seq<Route>, s: State) {
    && Shape(r, s) && GateOk(s)
    && (forall c :: 0 <= c < |r| ==> CarOk(r, s, c))
    && (forall q :: 0 <= q < 4 ==> QuadOk(r, s, q))
  }

  lemma {:induction false} CountStart(n: nat, f: Pc -> bool)
    requires !f(Start)
    ensures Count(seq(n, _ => Start), f) == 0
  {
    if n > 0 {
      assert seq(n, _ => Start)[..n - 1] == seq(n - 1, _ => Start);
      CountStart(n - 1, f);
    }
  }

  lemma InitOk(r: seq<Route>)
    requires forall c :: 0 <= c < |r| ==> RouteOk(r[c])
    ensures Inv(r, Init(|r|))
  {
    CountStart(|r|, Admitted);
    CountStart(|r|, Rechecking);
  }
}
