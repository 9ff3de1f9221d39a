// What every step of every car keeps, and why some car can always take one.
module IntersectionSafety {
  import opened Intersection

  // ---- Steps at the gate ----

  predicate AtGate(pc: Pc) {
    !Crossing(pc) && !pc.Sleep? && !pc.Done?
  }

  lemma QuadsKept(r: seq<Route>, s: State, s': State)
    requires Inv(r, s) && |s'.cars| == |s.cars| && s'.locks == s.locks && s'.flags == s.flags && s'.waits == s.waits && s'.lines == s.lines
    requires forall d :: 0 <= d < |s.cars| && s.cars[d].In? ==> s'.cars[d] == s.cars[d]
    ensures forall q :: 0 <= q < 4 ==> QuadOk(r, s', q)
  {
    forall q | 0 <= q < 4 ensures QuadOk(r, s', q) { assert QuadOk(r, s, q); }
  }

  // The first car on the gate queue sleeps.
  lemma HeadSleeps(r: seq<Route>, s: State)
    requires Inv(r, s) && s.queue != []
    ensures s.count > 0 && s.queue[0] < |r| && s.cars[s.queue[0]].Sleep? && CarOk(r, s, s.queue[0])
    ensures forall d :: d in s.queue[1..] <==> d in s.queue && d != s.queue[0]
  {
    assert s.queue[0] in s.queue;
    assert CarOk(r, s, s.queue[0]);
    hide CarOk, QuadOk;
  }

  lemma GateCar(r: seq<Route>, s: State, c: nat, d: nat)
    requires Inv(r, s) && c < |r| && CanStep(r, s, c) && AtGate(s.cars[c]) && !s.cars[c].Exit? && d < |r|
    ensures |StepOf(r, s, c).cars| == |r| && CarOk(r, StepOf(r, s, c), d)
  {
    assert CarOk(r, s, c) && CarOk(r, s, d);
    hide GateOk, QuadOk, Quad;
  }

  lemma ExitCar(r: seq<Route>, s: State, c: nat, d: nat)
    requires Inv(r, s) && c < |r| && s.cars[c].Exit? && d < |r|
    ensures |StepOf(r, s, c).cars| == |r| && CarOk(r, StepOf(r, s, c), d)
  {
    assert CarOk(r, s, c) && CarOk(r, s, d);
    assert s.count == |s.queue|;
    if s.queue != [] { HeadSleeps(r, s); }
    hide GateOk, QuadOk, Quad;
  }

  lemma GateCars(r: seq<Route>, s: State, c: nat)
    requires Inv(r, s) && c < |r| && CanStep(r, s, c) && AtGate(s.cars[c])
    ensures var s' := StepOf(r, s, c);
            |s'.cars| == |r| && s'.locks == s.locks && s'.flags == s.flags && forall d :: 0 <= d < |r| ==> CarOk(r, s', d)
  {
    var s' := StepOf(r, s, c);
    forall d | 0 <= d < |r| ensures CarOk(r, s', d) {
      if s.cars[c].Exit? { ExitCar(r, s, c, d); } else { GateCar(r, s, c, d); }
    }
    hide CarOk, QuadOk, GateOk;
  }

  lemma GateCounts(r: seq<Route>, s: State, c: nat)
    requires Inv(r, s) && c < |r| && CanStep(r, s, c) && AtGate(s.cars[c])
    ensures GateOk(StepOf(r, s, c))
  {
    hide CarOk, QuadOk, Count;
    var s' := StepOf(r, s, c);
    if s.cars[c].Exit? {
      LeaveCounts(r, s, c);
    } else {
      CountUpdate(s.cars, c, s'.cars[c], Admitted);
      CountUpdate(s.cars, c, s'.cars[c], Rechecking);
      NotQueued(r, s, c);
    }
  }

  lemma NotQueued(r: seq<Route>, s: State, c: nat)
    requires Inv(r, s) && c < |r| && !s.cars[c].Sleep?
    ensures c !in s.queue
  {
    assert CarOk(r, s, c);
  }

  // Leaving lowers the limit by one and raises the number of woken cars by one.
  lemma LeaveNumbers(r: seq<Route>, s: State, c: nat, f: Pc -> bool)
    requires Inv(r, s) && c < |r| && s.cars[c].Exit? && !f(Last) && !f(Sleep)
    ensures Count(LeaveGate(s, c).cars, f) ==
            Count(s.cars, f) - (if f(Exit) then 1 else 0) + if s.queue != [] && f(Woken) then 1 else 0
  {
    hide CarOk, QuadOk, Count;
    CountUpdate(s.cars, c, Last, f);
    if s.queue != [] {
      HeadSleeps(r, s);
      CountUpdate(s.cars[c := Last], s.queue[0], Woken, f);
    }
  }

  lemma LeaveCounts(r: seq<Route>, s: State, c: nat)
    requires Inv(r, s) && c < |r| && s.cars[c].Exit?
    ensures GateOk(StepOf(r, s, c))
  {
    hide CarOk, QuadOk, Count;
    LeaveNumbers(r, s, c, Admitted);
    LeaveNumbers(r, s, c, Rechecking);
    if s.queue != [] { HeadSleeps(r, s); }
    var s' := LeaveGate(s, c);
    assert s'.queue == if s.queue == [] then [] else s.queue[1..];
    assert StepOf(r, s, c) == s';
  }

  lemma GateStep(r: seq<Route>, s: State, c: nat)
    requires Inv(r, s) && c < |r| && CanStep(r, s, c) && AtGate(s.cars[c])
    ensures Inv(r, StepOf(r, s, c))
  {
    GateCars(r, s, c);
    GateCounts(r, s, c);
    var s' := StepOf(r, s, c);
    assert forall d :: 0 <= d < |s.cars| && s.cars[d].In? ==> s'.cars[d] == s.cars[d] by {
      if s.queue != [] { HeadSleeps(r, s); }
    }
    hide CarOk, QuadOk, GateOk;
    QuadsKept(r, s, s');
  }

  // ---- Steps in the quadrants ----

  lemma QuadsDiffer(r: Route, j: nat, k: nat)
    requires RouteOk(r) && j < 3 && k < 3
    ensures Quad(r, j) == Quad(r, k) <==> j == k
  {
  }

  // A car that has just taken a quadrant lock finds the flag clear.
  lemma FlagClear(r: seq<Route>, s: State, c: nat)
    requires Inv(r, s) && c < |r| && s.cars[c].Got?
    ensures !s.flags[Quad(r[c], s.cars[c].k)]
  {
    var q := Quad(r[c], s.cars[c].k);
    assert CarOk(r, s, c) && QuadOk(r, s, q);
  }

  // Nobody ever queues for a quadrant: its count is 0 whenever it is tested.
  lemma NoSignal(r: seq<Route>, s: State, q: nat)
    requires Inv(r, s) && q < 4
    ensures Signal(s, q) == s
  {
    assert QuadOk(r, s, q);
  }

  // The locks a crossing step changes were free or the car's own.
  lemma CrossingLocks(r: seq<Route>, s: State, c: nat)
    requires Inv(r, s) && c < |r| && CanStep(r, s, c) && Crossing(s.cars[c])
    ensures var s' := StepOf(r, s, c);
            && s'.cars == s.cars[c := s'.cars[c]] && s'.temp == s.temp && s'.queue == s.queue && |s'.locks| == |s'.flags| == 4
            && (forall q :: 0 <= q < 4 && s'.locks[q] != s.locks[q] ==> (s.locks[q] == -1 || s.locks[q] == c) && (s'.locks[q] == -1 || s'.locks[q] == c))
            && (forall q :: 0 <= q < 4 && s'.flags[q] != s.flags[q] ==> s.locks[q] == c)
  {
    assert CarOk(r, s, c);
    var k := s.cars[c].k;
    if s.cars[c].Got? { FlagClear(r, s, c); }
    NoSignal(r, s, Quad(r[c], k));
    if k > 0 { NoSignal(r, s, Quad(r[c], k - 1)); }
    hide GateOk, QuadOk, Quad, Signal;
  }

  lemma OwnCar(r: seq<Route>, s: State, c: nat)
    requires Inv(r, s) && c < |r| && CanStep(r, s, c) && Crossing(s.cars[c])
    ensures |StepOf(r, s, c).cars| == |r| && |StepOf(r, s, c).locks| == |StepOf(r, s, c).flags| == 4 && CarOk(r, StepOf(r, s, c), c)
  {
    assert CarOk(r, s, c) && RouteOk(r[c]);
    if s.cars[c].Want? || s.cars[c].Got? || s.cars[c].In? {
      OwnIn(r, s, c);
    } else {
      OwnOut(r, s, c);
    }
  }

  // Taking a quadrant, entering it, and clearing its flag.
  lemma OwnIn(r: seq<Route>, s: State, c: nat)
    requires Inv(r, s) && c < |r| && CanStep(r, s, c) && (s.cars[c].Want? || s.cars[c].Got? || s.cars[c].In?)
    ensures |StepOf(r, s, c).cars| == |r| && |StepOf(r, s, c).locks| == |StepOf(r, s, c).flags| == 4 && CarOk(r, StepOf(r, s, c), c)
  {
    assert CarOk(r, s, c) && RouteOk(r[c]);
    if s.cars[c].Got? { FlagClear(r, s, c); }
    hide GateOk, QuadOk, Quad, Signal;
  }

  // Releasing a quadrant.
  lemma OwnOut(r: seq<Route>, s: State, c: nat)
    requires Inv(r, s) && c < |r| && (s.cars[c].Out? || s.cars[c].Rel?)
    ensures |StepOf(r, s, c).cars| == |r| && |StepOf(r, s, c).locks| == |StepOf(r, s, c).flags| == 4 && CarOk(r, StepOf(r, s, c), c)
  {
    assert CarOk(r, s, c) && RouteOk(r[c]);
    var k := s.cars[c].k;
    NoSignal(r, s, Quad(r[c], k));
    if k > 0 {
      NoSignal(r, s, Quad(r[c], k - 1));
      QuadsDiffer(r[c], k - 1, k);
    }
    hide GateOk, QuadOk, Quad, Signal;
  }

  lemma OtherCar(r: seq<Route>, s: State, c: nat, d: nat)
    requires Inv(r, s) && c < |r| && CanStep(r, s, c) && Crossing(s.cars[c]) && d < |r| && d != c
    ensures |StepOf(r, s, c).cars| == |r| && |StepOf(r, s, c).locks| == |StepOf(r, s, c).flags| == 4 && CarOk(r, StepOf(r, s, c), d)
  {
    CrossingLocks(r, s, c);
    assert CarOk(r, s, d);
    hide GateOk, QuadOk, StepOf, Quad;
  }

  lemma CrossingCars(r: seq<Route>, s: State, c: nat)
    requires Inv(r, s) && c < |r| && CanStep(r, s, c) && Crossing(s.cars[c])
    ensures var s' := StepOf(r, s, c);
            |s'.cars| == |r| && |s'.locks| == |s'.flags| == 4 && forall d :: 0 <= d < |r| ==> CarOk(r, s', d)
  {
    hide CarOk, QuadOk, GateOk, StepOf;
    OwnCar(r, s, c);
    forall d | 0 <= d < |r| ensures CarOk(r, StepOf(r, s, c), d) {
      if d != c { OtherCar(r, s, c, d); }
    }
  }

  lemma CrossingQuads(r: seq<Route>, s: State, c: nat)
    requires Inv(r, s) && c < |r| && CanStep(r, s, c) && Crossing(s.cars[c])
    ensures var s' := StepOf(r, s, c);
            |s'.cars| == |r| && |s'.locks| == |s'.flags| == |s'.waits| == |s'.lines| == 4 && forall q :: 0 <= q < 4 ==> QuadOk(r, s', q)
  {
    var s', pc := StepOf(r, s, c), s.cars[c];
    assert CarOk(r, s, c);
    var k := pc.k;
    if pc.Got? { FlagClear(r, s, c); }
    NoSignal(r, s, Quad(r[c], k));
    if k > 0 {
      NoSignal(r, s, Quad(r[c], k - 1));
      QuadsDiffer(r[c], k - 1, k);
    }
    forall q | 0 <= q < 4 ensures QuadOk(r, s', q) {
      assert QuadOk(r, s, q);
    }
  }

  lemma CrossingStep(r: seq<Route>, s: State, c: nat)
    requires Inv(r, s) && c < |r| && CanStep(r, s, c) && Crossing(s.cars[c])
    ensures Inv(r, StepOf(r, s, c))
  {
    var s', pc := StepOf(r, s, c), s.cars[c];
    CrossingCars(r, s, c);
    CrossingQuads(r, s, c);
    assert CarOk(r, s, c);
    if pc.Got? { FlagClear(r, s, c); }
    NoSignal(r, s, Quad(r[c], pc.k));
    if pc.k > 0 { NoSignal(r, s, Quad(r[c], pc.k - 1)); }
    CountUpdate(s.cars, c, s'.cars[c], Admitted);
    CountUpdate(s.cars, c, s'.cars[c], Rechecking);
    hide CarOk, QuadOk, Signal;
  }

  // ---- Every step, every run ----

  lemma StepKeeps(r: seq<Route>, s: State, c: nat)
    requires Inv(r, s) && c < |r| && CanStep(r, s, c)
    ensures Inv(r, StepOf(r, s, c))
  {
    hide CarOk, QuadOk, GateOk, StepOf;
    if Crossing(s.cars[c]) { CrossingStep(r, s, c); } else { GateStep(r, s, c); }
  }

  // A run: at each point some car steps.
  ghost predicate IsRun(r: seq<Route>, run: seq<State>, who: seq<nat>) {
    && |run| == |who| + 1 && run[0] == Init(|r|)
    && (forall i :: 0 <= i < |who| ==> Moves(r, run[i], who[i], run[i + 1]))
  }

  ghost predicate Moves(r: seq<Route>, s: State, c: nat, s': State) {
    Shape(r, s) && c < |r| && CanStep(r, s, c) && s' == StepOf(r, s, c)
  }

  // The invariant holds all along every run.
  lemma {:induction false} RunsKeep(r: seq<Route>, run: seq<State>, who: seq<nat>, i: nat)
    requires IsRun(r, run, who) && i < |run| && forall c :: 0 <= c < |r| ==> RouteOk(r[c])
    ensures Inv(r, run[i])
  {
    hide Inv, CanStep, StepOf, Init;
    if i == 0 {
      InitOk(r);
    } else {
      RunsKeep(r, run, who, i - 1);
      assert Moves(r, run[i - 1], who[i - 1], run[i]);
      StepKeeps(r, run[i - 1], who[i - 1]);
    }
  }

  // ---- What the invariant says ----

  // Two cars are never in the same quadrant.
  lemma OneCarInAQuadrant(r: seq<Route>, s: State, c: nat, d: nat)
    requires Inv(r, s) && c < |r| && d < |r| && c != d && s.cars[c].In? && s.cars[d].In?
    ensures Quad(r[c], s.cars[c].k) != Quad(r[d], s.cars[d].k)
  {
    assert CarOk(r, s, c) && CarOk(r, s, d);
    var q := Quad(r[c], s.cars[c].k);
    assert s.locks[q] == c;
  }

  // The gate never has more than three cars past it.
  lemma AtMostThree(r: seq<Route>, s: State, who: set<nat>)
    requires Inv(r, s) && forall c :: c in who ==> c < |r| && Admitted(s.cars[c])
    ensures |who| <= 3
  {
    CountAtLeast(s.cars, Admitted, who);
  }

  // The count of sleepers is the length of the gate queue, a car is on it exactly while
  // it sleeps there, and no wakeup is lost.
  lemma NoLostWakeup(r: seq<Route>, s: State, c: nat)
    requires Inv(r, s) && c < |r|
    ensures s.count == |s.queue| && (s.cars[c].Sleep? <==> c in s.queue)
    ensures s.cars[c].Sleep? ==> s.limit + Count(s.cars, Rechecking) >= 3
  {
    assert CarOk(r, s, c);
  }

  // ---- Some car can step ----

  // A crossing car that cannot step waits for a quadrant lock another car holds, and
  // holds at most the quadrant before it.
  lemma Blocked(r: seq<Route>, s: State, c: nat) returns (d: nat)
    requires Inv(r, s) && c < |r| && Crossing(s.cars[c]) && !CanStep(r, s, c)
    ensures s.cars[c].Want? && d < |r| && Crossing(s.cars[d]) && Holds(r[d], s.cars[d], Quad(r[c], s.cars[c].k))
    ensures forall q :: 0 <= q < 4 && Holds(r[c], s.cars[c], q) ==> (q + 1) % 4 == Quad(r[c], s.cars[c].k)
  {
    assert CarOk(r, s, c);
    var q := Quad(r[c], s.cars[c].k);
    assert QuadOk(r, s, q);
    d := s.locks[q];
    assert CarOk(r, s, d);
  }

  // The holder of quadrant q, itself unable to step, waits for the next quadrant.
  lemma NextInRing(r: seq<Route>, s: State, c: nat, q: nat) returns (d: nat)
    requires Inv(r, s) && c < |r| && q < 4 && Crossing(s.cars[c]) && !CanStep(r, s, c) && Holds(r[c], s.cars[c], q)
    ensures d < |r| && Crossing(s.cars[d]) && Holds(r[d], s.cars[d], (q + 1) % 4)
  {
    hide Inv, CanStep;
    d := Blocked(r, s, c);
  }

  // A blocked car holds only one quadrant.
  lemma HoldsOne(r: seq<Route>, s: State, c: nat, q: nat, p: nat)
    requires Inv(r, s) && c < |r| && Crossing(s.cars[c]) && !CanStep(r, s, c)
    requires q < 4 && p < 4 && Holds(r[c], s.cars[c], q) && Holds(r[c], s.cars[c], p)
    ensures q == p
  {
    hide Inv, CanStep;
    var d := Blocked(r, s, c);
  }

  // While cars are crossing, one of them can step: a circular wait needs four.
  lemma SomeCrossingCarSteps(r: seq<Route>, s: State, c: nat) returns (d: nat)
    requires Inv(r, s) && c < |r| && Crossing(s.cars[c])
    ensures d < |r| && Crossing(s.cars[d]) && CanStep(r, s, d)
  {
    hide CarOk, QuadOk, GateOk, CanStep, Holds, Quad;
    d := c;
    if !CanStep(r, s, c) {
      var d0 := Blocked(r, s, c);
      var q := Quad(r[c], s.cars[c].k);
      if CanStep(r, s, d0) { return d0; }
      var d1 := NextInRing(r, s, d0, q);
      if CanStep(r, s, d1) { return d1; }
      var d2 := NextInRing(r, s, d1, (q + 1) % 4);
      if CanStep(r, s, d2) { return d2; }
      var d3 := NextInRing(r, s, d2, (q + 2) % 4);
      if CanStep(r, s, d3) { return d3; }
      FourApart(r, s, d0, d1, d2, d3, q);
      AtMostThree(r, s, {d0, d1, d2, d3});
    }
  }

  lemma FourApart(r: seq<Route>, s: State, d0: nat, d1: nat, d2: nat, d3: nat, q: nat)
    requires Inv(r, s) && q < 4
    requires d0 < |r| && d1 < |r| && d2 < |r| && d3 < |r|
    requires Crossing(s.cars[d0]) && Crossing(s.cars[d1]) && Crossing(s.cars[d2]) && Crossing(s.cars[d3])
    requires !CanStep(r, s, d0) && !CanStep(r, s, d1) && !CanStep(r, s, d2) && !CanStep(r, s, d3)
    requires Holds(r[d0], s.cars[d0], q) && Holds(r[d1], s.cars[d1], (q + 1) % 4)
    requires Holds(r[d2], s.cars[d2], (q + 2) % 4) && Holds(r[d3], s.cars[d3], (q + 3) % 4)
    ensures |{d0, d1, d2, d3}| == 4
  {
    hide Inv, CanStep, Holds;
    if d0 == d1 { HoldsOne(r, s, d0, q, (q + 1) % 4); }
    if d0 == d2 { HoldsOne(r, s, d0, q, (q + 2) % 4); }
    if d0 == d3 { HoldsOne(r, s, d0, q, (q + 3) % 4); }
    if d1 == d2 { HoldsOne(r, s, d1, (q + 1) % 4, (q + 2) % 4); }
    if d1 == d3 { HoldsOne(r, s, d1, (q + 1) % 4, (q + 3) % 4); }
    if d2 == d3 { HoldsOne(r, s, d2, (q + 2) % 4, (q + 3) % 4); }
  }
}
