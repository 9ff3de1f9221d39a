// Every run of the intersection ends, and ends with every car through.
module IntersectionLiveness {
  import opened Intersection
  import opened IntersectionSafety
  import opened IntersectionCrossing

  // ---- A car can step unless all are through ----

  lemma {:induction false} CountWitness(cars: seq<Pc>, f: Pc -> bool) returns (c: nat)
    requires Count(cars, f) > 0
    ensures c < |cars| && f(cars[c])
  {
    var n := |cars| - 1;
    if f(cars[n]) { c := n; } else { c := CountWitness(cars[..n], f); }
  }

  // The holder of the gate lock can always go on.
  lemma GateHolderSteps(r: seq<Route>, s: State)
    requires Inv(r, s) && s.temp != -1
    ensures 0 <= s.temp < |r| && CanStep(r, s, s.temp)
  {
    assert CarOk(r, s, s.temp);
  }

  // An admitted car can step, or the car it waits for can.
  lemma AdmittedProgress(r: seq<Route>, s: State, c: nat) returns (d: nat)
    requires Inv(r, s) && c < |r| && (Admitted(s.cars[c]) || Rechecking(s.cars[c]))
    ensures d < |r| && CanStep(r, s, d)
  {
    hide CarOk, QuadOk, GateOk;
    if Crossing(s.cars[c]) {
      d := SomeCrossingCarSteps(r, s, c);
    } else if s.temp != -1 {
      GateHolderSteps(r, s);
      d := s.temp;
    } else {
      d := c;
    }
  }

  lemma SomeCarSteps(r: seq<Route>, s: State, c: nat) returns (d: nat)
    requires Inv(r, s) && c < |r| && !s.cars[c].Done?
    ensures d < |r| && CanStep(r, s, d)
  {
    if s.cars[c].Sleep? {
      NoLostWakeup(r, s, c);
      if Count(s.cars, Rechecking) > 0 {
        var w := CountWitness(s.cars, Rechecking);
        d := AdmittedProgress(r, s, w);
      } else {
        var w := CountWitness(s.cars, Admitted);
        d := AdmittedProgress(r, s, w);
      }
    } else if s.temp != -1 {
      GateHolderSteps(r, s);
      d := s.temp;
    } else if Crossing(s.cars[c]) {
      d := SomeCrossingCarSteps(r, s, c);
    } else {
      assert CarOk(r, s, c);
      d := c;
    }
  }

  // ---- Every step is progress ----

  // Steps a car may still have to take, with room for one more round at the gate.
  function Weight(r: Route, pc: Pc): nat {
    match pc
    case Start | Woken => 22
    case Gate | Recheck => 21
    case Sleep => 20
    case Choose => 19
    case Want(k) => if k < r.len <= 3 then 10 + 4 * (r.len - 1 - k) else 0
    case Got(k) => if k < r.len <= 3 then 9 + 4 * (r.len - 1 - k) else 0
    case In(k) => if k < r.len <= 3 then 8 + 4 * (r.len - 1 - k) else 0
    case Out(k) => if k < r.len <= 3 then 7 + 4 * (r.len - 1 - k) else 0
    case Rel(_) => 6
    case Leave => 5
    case Exit => 4
    case Last => 1
    case _ => 0
  }

  function Total(r: seq<Route>, cars: seq<Pc>): nat
    requires |cars| <= |r|
  {
    if cars == [] then 0 else Total(r, cars[..|cars| - 1]) + Weight(r[|cars| - 1], cars[|cars| - 1])
  }

  lemma {:induction false} TotalUpdate(r: seq<Route>, cars: seq<Pc>, c: nat, pc: Pc)
    requires c < |cars| <= |r|
    ensures Total(r, cars[c := pc]) == Total(r, cars) + Weight(r[c], pc) - Weight(r[c], cars[c])
  {
    hide Weight;
    var n := |cars| - 1;
    if c == n {
      assert cars[c := pc][..n] == cars[..n];
    } else {
      assert cars[c := pc][..n] == cars[..n][c := pc];
      TotalUpdate(r, cars[..n], c, pc);
    }
  }

  lemma ExitIsProgress(r: seq<Route>, s: State, c: nat)
    requires Inv(r, s) && c < |r| && s.cars[c].Exit?
    ensures |StepOf(r, s, c).cars| == |r| && Total(r, StepOf(r, s, c).cars) < Total(r, s.cars)
  {
    hide CarOk, QuadOk, Total;
    TotalUpdate(r, s.cars, c, Last);
    if s.queue != [] {
      HeadSleeps(r, s);
      TotalUpdate(r, s.cars[c := Last], s.queue[0], Woken);
    }
  }

  lemma StepIsProgress(r: seq<Route>, s: State, c: nat)
    requires Inv(r, s) && c < |r| && CanStep(r, s, c)
    ensures |StepOf(r, s, c).cars| == |r| && Total(r, StepOf(r, s, c).cars) < Total(r, s.cars)
  {
    if s.cars[c].Exit? {
      ExitIsProgress(r, s, c);
    } else {
      OneCarMoves(r, s, c);
      var s' := StepOf(r, s, c);
      hide StepOf, Total, Inv;
      TotalUpdate(r, s.cars, c, s'.cars[c]);
    }
  }

  // Every step but leaving the gate changes only the car's own place, to a later one.
  lemma OneCarMoves(r: seq<Route>, s: State, c: nat)
    requires Inv(r, s) && c < |r| && CanStep(r, s, c) && !s.cars[c].Exit?
    ensures var s' := StepOf(r, s, c);
            |s'.cars| == |r| && s'.cars == s.cars[c := s'.cars[c]] && Weight(r[c], s'.cars[c]) < Weight(r[c], s.cars[c])
  {
    assert CarOk(r, s, c) && RouteOk(r[c]);
    if Crossing(s.cars[c]) {
      var k := s.cars[c].k;
      if s.cars[c].Got? { FlagClear(r, s, c); }
      NoSignal(r, s, Quad(r[c], k));
      if k > 0 { NoSignal(r, s, Quad(r[c], k - 1)); }
    }
    hide CarOk, QuadOk, GateOk, Signal, Quad;
  }

  lemma {:induction false} TotalStart(r: seq<Route>, n: nat)
    requires n <= |r|
    ensures Total(r, seq(n, _ => Start)) == 22 * n
  {
    if n > 0 {
      assert seq(n, _ => Start)[..n - 1] == seq(n - 1, _ => Start);
      TotalStart(r, n - 1);
    }
  }

  lemma {:induction false} Spent(r: seq<Route>, run: seq<State>, who: seq<nat>, i: nat)
    requires IsRun(r, run, who) && i < |run| && forall c :: 0 <= c < |r| ==> RouteOk(r[c])
    ensures |run[i].cars| == |r| && i + Total(r, run[i].cars) <= 22 * |r|
  {
    hide StepOf, CanStep, Total, Inv, Shape, RouteOk;
    if i == 0 {
      SpentAtStart(r);
    } else {
      Spent(r, run, who, i - 1);
      RunsKeep(r, run, who, i - 1);
      assert Moves(r, run[i - 1], who[i - 1], run[i]);
      StepIsProgress(r, run[i - 1], who[i - 1]);
    }
  }

  lemma SpentAtStart(r: seq<Route>)
    ensures |Init(|r|).cars| == |r| && Total(r, Init(|r|).cars) == 22 * |r|
  {
    TotalStart(r, |r|);
  }

  // No run, whatever the interleaving, is longer than 22 steps a car; and a run that
  // cannot go on has brought every car through all the quadrants of its route, in order and
  // through no other.
  lemma EveryRunFinishes(r: seq<Route>, run: seq<State>, who: seq<nat>)
    requires IsRun(r, run, who) && forall c :: 0 <= c < |r| ==> RouteOk(r[c])
    ensures |who| <= 22 * |r| && Shape(r, run[|who|])
    ensures (forall c :: 0 <= c < |r| ==> !CanStep(r, run[|who|], c)) ==> forall c :: 0 <= c < |r| ==> run[|who|].cars[c].Done?
    ensures CarsListed(r, run)
    ensures forall c :: 0 <= c < |r| && run[|who|].cars[c].Done? ==> Visited(r, run, c, |who|) == Path(r[c], r[c].len)
  {
    RunListed(r, run, who);
    forall c | 0 <= c < |r| && run[|who|].cars[c].Done? ensures Visited(r, run, c, |who|) == Path(r[c], r[c].len) {
      InOrder(r, run, who, c, |who|);
    }
    hide Visited, Path;
    Spent(r, run, who, |who|);
    RunsKeep(r, run, who, |who|);
    var s := run[|who|];
    forall c | 0 <= c < |r| && !s.cars[c].Done? ensures exists d :: 0 <= d < |r| && CanStep(r, s, d) {
      var d := SomeCarSteps(r, s, c);
    }
  }
}
