// What each car does: it is in the quadrants of its route, in their order, and in no other,
// before it leaves. And the gate lets waiting cars in as they came.
module IntersectionCrossing {
  import opened Intersection
  import opened IntersectionSafety

  // ---- Roads ----

  // The road a car leaves by, the roads numbered as the directions: a right turn leads to the
  // road before its own, a left turn to the one after, straight on to the one opposite.
  function ExitRoad(direction: nat, turn: nat): (road: nat)
    requires direction < 4 && turn < 3
    ensures road < 4
  {
    (direction + [3, 1, 2][turn]) % 4
  }

  // Cars keep to the right: one comes from a road into the quadrant on its near side and
  // goes to a road from the quadrant on its far side.
  function EntryQuad(road: nat): nat
    requires road < 4
  {
    [NW, NE, SE, SW][road]
  }

  function ExitQuad(road: nat): nat
    requires road < 4
  {
    [NE, SE, SW, NW][road]
  }

  lemma RoutesLeadThere(direction: nat, turn: nat)
    requires direction < 4 && turn < 3
    ensures var locks := LockOrder(direction, turn);
            |locks| > 0 && locks[0] == EntryQuad(direction) && locks[|locks| - 1] == ExitQuad(ExitRoad(direction, turn))
  {
    if direction == 0 { if turn == 0 {} else if turn == 1 {} else {} }
    else if direction == 1 { if turn == 0 {} else if turn == 1 {} else {} }
    else if direction == 2 { if turn == 0 {} else if turn == 1 {} else {} }
    else { if turn == 0 {} else if turn == 1 {} else {} }
  }

  // ---- The quadrants a car has been in ----

  // The quadrant a car comes into by going from one place to another, if any.
  function Entry(r: Route, pc: Pc, pc': Pc): seq<nat> {
    if pc'.In? && pc' != pc then [Quad(r, pc'.k)] else []
  }

  // The quadrants car c entered in the first n steps of a run, in order.
  ghost function Visited(r: seq<Route>, run: seq<State>, c: nat, n: nat): seq<nat>
    requires n < |run| && c < |r| && forall i :: 0 <= i < |run| ==> c < |run[i].cars|
  {
    if n == 0 then [] else Visited(r, run, c, n - 1) + Entry(r[c], run[n - 1].cars[c], run[n].cars[c])
  }

  // The first n quadrants of a route.
  function Path(r: Route, n: nat): seq<nat> {
    seq(n, k requires 0 <= k < n => Quad(r, k))
  }

  // How many quadrants a car at this place has entered.
  function Entered(r: Route, pc: Pc): nat {
    match pc
    case Want(k) => k
    case Got(k) => k
    case QSleep(k) => k
    case In(k) => k + 1
    case Out(k) => k + 1
    case Rel(k) => k + 1
    case Leave | Exit | Last | Done => r.len
    case _ => 0
  }

  // Going from one place to another is going into the next quadrant, or into none.
  predicate EntersNext(r: Route, pc: Pc, pc': Pc) {
    if pc'.In? && pc' != pc then pc'.k == Entered(r, pc) && Entered(r, pc') == pc'.k + 1
    else Entered(r, pc') == Entered(r, pc)
  }

  // A step takes a car into the next quadrant of its route, or into none.
  lemma StepEnters(r: seq<Route>, s: State, c: nat, d: nat)
    requires Inv(r, s) && c < |r| && CanStep(r, s, c) && d < |r|
    ensures |s.cars| == |r| == |StepOf(r, s, c).cars| && EntersNext(r[d], s.cars[d], StepOf(r, s, c).cars[d])
  {
    hide CarOk, QuadOk, GateOk, StepOf, EntersNext;
    if Crossing(s.cars[c]) { CrossingEnters(r, s, c, d); } else { GateEnters(r, s, c, d); }
  }

  lemma CrossingEnters(r: seq<Route>, s: State, c: nat, d: nat)
    requires Inv(r, s) && c < |r| && CanStep(r, s, c) && d < |r| && Crossing(s.cars[c])
    ensures |StepOf(r, s, c).cars| == |r| && EntersNext(r[d], s.cars[d], StepOf(r, s, c).cars[d])
  {
    var k := s.cars[c].k;
    assert CarOk(r, s, c) && RouteOk(r[c]);
    if s.cars[c].Got? { FlagClear(r, s, c); }
    NoSignal(r, s, Quad(r[c], k));
    if k > 0 { NoSignal(r, s, Quad(r[c], k - 1)); }
    hide CarOk, QuadOk, GateOk, Signal, Quad, Holds;
    assert d != c ==> StepOf(r, s, c).cars[d] == s.cars[d];
  }

  lemma GateEnters(r: seq<Route>, s: State, c: nat, d: nat)
    requires Inv(r, s) && c < |r| && CanStep(r, s, c) && d < |r| && !Crossing(s.cars[c])
    ensures |StepOf(r, s, c).cars| == |r| && EntersNext(r[d], s.cars[d], StepOf(r, s, c).cars[d])
  {
    if s.cars[c].Exit? && s.queue != [] {
      HeadSleeps(r, s);
    }
    hide CarOk, QuadOk, GateOk;
  }

  ghost predicate CarsListed(r: seq<Route>, run: seq<State>) {
    forall i :: 0 <= i < |run| ==> |run[i].cars| == |r|
  }

  lemma RunListed(r: seq<Route>, run: seq<State>, who: seq<nat>)
    requires IsRun(r, run, who) && forall c :: 0 <= c < |r| ==> RouteOk(r[c])
    ensures CarsListed(r, run)
  {
    hide StepOf, CanStep, RouteOk, IsRun;
    forall i | 0 <= i < |run| ensures |run[i].cars| == |r| {
      RunsKeep(r, run, who, i);
    }
  }

  // All along every run a car has been in the first quadrants of its route, each once and
  // in order, and in no other.
  lemma {:induction false} InOrder(r: seq<Route>, run: seq<State>, who: seq<nat>, c: nat, n: nat)
    requires IsRun(r, run, who) && CarsListed(r, run) && n < |run| && c < |r| && forall i :: 0 <= i < |r| ==> RouteOk(r[i])
    ensures Visited(r, run, c, n) == Path(r[c], Entered(r[c], run[n].cars[c]))
  {
    hide StepOf, CanStep, Inv, Shape, RouteOk, Quad, Entered;
    if n == 0 {
      assert Entered(r[c], Start) == 0 by { StartsOutside(r[c]); }
    } else {
      InOrder(r, run, who, c, n - 1);
      RunsKeep(r, run, who, n - 1);
      assert Moves(r, run[n - 1], who[n - 1], run[n]);
      StepEnters(r, run[n - 1], who[n - 1], c);
      var k := Entered(r[c], run[n - 1].cars[c]);
      assert Path(r[c], k + 1) == Path(r[c], k) + [Quad(r[c], k)];
    }
  }

  lemma StartsOutside(r: Route)
    ensures Entered(r, Start) == 0
  {
  }

  // A car that is through has crossed: coming from a direction and making a turn, it was in
  // exactly the quadrants of that route, in order.
  lemma EveryCarCrosses(r: seq<Route>, run: seq<State>, who: seq<nat>, c: nat, direction: nat, turn: nat, n: nat)
    requires IsRun(r, run, who) && n < |run| && c < |r| && forall i :: 0 <= i < |r| ==> RouteOk(r[i])
    requires direction < 4 && turn < 3 && r[c] == RouteOf(direction, turn)
    requires |run[n].cars| == |r| && run[n].cars[c].Done?
    ensures CarsListed(r, run) && Visited(r, run, c, n) == LockOrder(direction, turn)
  {
    hide StepOf, CanStep, Inv, Shape, RouteOk, Quad, LockOrder, IsRun, RouteOf;
    RunListed(r, run, who);
    InOrder(r, run, who, c, n);
    RoutesFollowRing(direction, turn);
  }

  // ---- Where a car stands ----

  // A car stands in the quadrant it entered last, until it has gone out of the last one.
  predicate Stands(r: Route, pc: Pc) {
    Crossing(pc) && Entered(r, pc) > 0
  }

  function Spot(r: Route, pc: Pc): nat
    requires Stands(r, pc)
  {
    Quad(r, Entered(r, pc) - 1)
  }

  // A car has the lock of the quadrant it stands in, also while it waits for the next one. So
  // two cars never stand in the same quadrant.
  lemma StandsAlone(r: seq<Route>, s: State, c: nat, d: nat)
    requires Inv(r, s) && c < |r| && d < |r| && Stands(r[c], s.cars[c])
    ensures s.locks[Spot(r[c], s.cars[c])] == c
    ensures c != d && Stands(r[d], s.cars[d]) ==> Spot(r[d], s.cars[d]) != Spot(r[c], s.cars[c])
  {
    StandsIn(r, s, c);
    if Stands(r[d], s.cars[d]) { StandsIn(r, s, d); }
    hide CarOk, QuadOk, GateOk;
  }

  lemma StandsIn(r: seq<Route>, s: State, c: nat)
    requires Inv(r, s) && c < |r| && Stands(r[c], s.cars[c])
    ensures s.locks[Spot(r[c], s.cars[c])] == c
  {
    assert CarOk(r, s, c);
  }

  // With every car through, no lock is held, no flag is set and nobody is counted or queued:
  // the intersection is as it was at first.
  lemma AllRestored(r: seq<Route>, s: State)
    requires Inv(r, s) && forall c :: 0 <= c < |r| ==> s.cars[c].Done?
    ensures s == Init(|r|).(cars := s.cars)
  {
    CountNone(s.cars, Admitted);
    GateHeld(r, s);
    forall q | 0 <= q < 4 ensures s.locks[q] == -1 && !s.flags[q] && s.waits[q] == 0 && s.lines[q] == [] {
      LockHeld(r, s, q);
    }
    assert s.locks == [-1, -1, -1, -1] && s.flags == [false, false, false, false];
    assert s.waits == [0, 0, 0, 0] && s.lines == [[], [], [], []];
    assert s.queue == [] && s.temp == -1;
  }

  // The gate's lock, if taken, is a car's whose place says so, and a car queued there sleeps.
  lemma GateHeld(r: seq<Route>, s: State)
    requires Inv(r, s)
    ensures s.temp >= 0 ==> s.temp < |r| && HoldsTemp(s.cars[s.temp])
    ensures s.queue != [] ==> s.queue[0] < |r| && s.cars[s.queue[0]].Sleep?
  {
    assert s.temp >= 0 ==> CarOk(r, s, s.temp);
    assert s.queue != [] ==> s.queue[0] in s.queue && s.queue[0] < |r| && CarOk(r, s, s.queue[0]);
  }

  // A lock that is taken is the lock of a car whose place says so.
  lemma LockHeld(r: seq<Route>, s: State, q: nat)
    requires Inv(r, s) && q < 4
    ensures QuadOk(r, s, q)
    ensures s.locks[q] >= 0 ==> s.locks[q] < |r| && Holds(r[s.locks[q]], s.cars[s.locks[q]], q)
  {
    assert QuadOk(r, s, q);
    if s.locks[q] >= 0 { assert CarOk(r, s, s.locks[q]); }
  }

  lemma {:induction false} CountNone(cars: seq<Pc>, f: Pc -> bool)
    requires forall c :: 0 <= c < |cars| ==> !f(cars[c])
    ensures Count(cars, f) == 0
  {
    if cars != [] { CountNone(cars[..|cars| - 1], f); }
  }

  // ---- The queue at the gate ----

  // A step adds at most one car at the tail of the gate's queue, or takes its head and wakes
  // that car.
  lemma GateFifo(r: seq<Route>, s: State, c: nat)
    requires Inv(r, s) && c < |r| && CanStep(r, s, c)
    ensures var s' := StepOf(r, s, c);
            || s'.queue == s.queue
            || (s'.queue == s.queue + [c] && |s'.cars| == |r| && s'.cars[c].Sleep?)
            || (s.queue != [] && s'.queue == s.queue[1..] && s.queue[0] < |s'.cars| && s'.cars[s.queue[0]].Woken?)
  {
    assert CarOk(r, s, c);
    if Crossing(s.cars[c]) {
      var k := s.cars[c].k;
      NoSignal(r, s, Quad(r[c], k));
      if k > 0 { NoSignal(r, s, Quad(r[c], k - 1)); }
    } else if s.cars[c].Exit? && s.queue != [] {
      HeadSleeps(r, s);
    }
    hide CarOk, QuadOk, GateOk, Signal, Quad;
  }

  // A car leaving wakes the first car that waits at the gate, if one does.
  lemma LeavingWakes(r: seq<Route>, s: State, c: nat)
    requires Inv(r, s) && c < |r| && s.cars[c].Exit? && s.queue != []
    ensures s.queue[0] < |r| && StepOf(r, s, c).cars[s.queue[0]].Woken?
  {
    HeadSleeps(r, s);
    hide CarOk, QuadOk;
  }

  // The cars woken at the gate in the first n steps of a run.
  ghost function Wakes(run: seq<State>, n: nat): nat
    requires n < |run|
  {
    if n == 0 then 0 else Wakes(run, n - 1) + if |run[n].queue| < |run[n - 1].queue| then 1 else 0
  }

  // A car that waits behind j others is the (j+1)-th woken from then on, whoever comes.
  lemma {:induction false} GateInTurn(r: seq<Route>, run: seq<State>, who: seq<nat>, m: nat, n: nat, j: nat)
    requires IsRun(r, run, who) && m <= n < |run| && j < |run[m].queue| && forall c :: 0 <= c < |r| ==> RouteOk(r[c])
    ensures Wakes(run, m) <= Wakes(run, n) && run[m].queue[j] < |run[n].cars|
    ensures var w := Wakes(run, n) - Wakes(run, m);
            w <= j ==> j - w < |run[n].queue| && run[n].queue[j - w] == run[m].queue[j]
    ensures n > m && Wakes(run, n - 1) - Wakes(run, m) == j < Wakes(run, n) - Wakes(run, m) ==> run[n].cars[run[m].queue[j]].Woken?
    decreases n
  {
    hide StepOf, CanStep, RouteOk;
    RunsKeep(r, run, who, n);
    RunsKeep(r, run, who, m);
    assert run[m].queue[j] in run[m].queue;
    if n > m {
      GateInTurn(r, run, who, m, n - 1, j);
      RunsKeep(r, run, who, n - 1);
      assert Moves(r, run[n - 1], who[n - 1], run[n]);
      GateFifo(r, run[n - 1], who[n - 1]);
    }
    hide Inv, Shape, IsRun;
  }
}
