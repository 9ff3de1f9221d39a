// What it takes to run out of swap: more writable pages than there are slots.
module PagingLimits {
  import opened Chains
  import opened PagingState
  import opened PagingSteps
  import opened PagingClock
  import opened PagingFacts

  // The pages in use that can be written, and those of them that are in swap.
  ghost function DirtyPages(m: Vm, b: Book): (s: set<nat>)
    ensures forall p :: p in s <==> p in b.live && Pg(m, p).dirty
  {
    set p | p in b.live && Pg(m, p).dirty
  }

  ghost function SwappedPages(m: Vm, b: Book): (s: set<nat>)
    ensures forall p :: p in s <==> p in b.live && Pg(m, p).sfn != -1
  {
    set p | p in b.live && Pg(m, p).sfn != -1
  }

  // p has slot x.
  predicate HasSlot(m: Vm, p: nat, x: nat) {
    Pg(m, p).sfn == x
  }

  // As many pages as slots, if each has one of them and each is had by one.
  lemma {:induction false} SlotsMatch(m: Vm, ps: set<nat>, xs: set<nat>)
    requires forall p :: p in ps ==> Pg(m, p).sfn >= 0 && Pg(m, p).sfn in xs
    requires forall x :: x in xs ==> exists p :: p in ps && HasSlot(m, p, x)
    requires forall p, q :: p in ps && q in ps && p != q ==> Pg(m, p).sfn != Pg(m, q).sfn
    ensures |ps| == |xs|
  {
    hide Pg;
    if ps == {} {
      assert xs == {};
    } else {
      var p :| p in ps;
      var x: nat := Pg(m, p).sfn;
      forall y | y in xs - {x} ensures exists q :: q in ps - {p} && HasSlot(m, q, y) {
        var q :| q in ps && HasSlot(m, q, y);
        assert q in ps - {p};
      }
      SlotsMatch(m, ps - {p}, xs - {x});
    }
  }

  lemma SlotFacts(m: Vm, b: Book)
    requires Owned(m, b, -1)
    ensures Distinct(b.slots) && forall s :: s in b.slots ==> s < 1024
    ensures forall p :: p in b.live && Pg(m, p).sfn != -1 ==> 0 <= Pg(m, p).sfn < 1024 && Pg(m, p).sfn !in b.slots && Pg(m, p).dirty && Pg(m, p).pfn == -1
    ensures forall s: nat :: s < 1024 && s !in b.slots ==> exists p :: p in b.live && HasSlot(m, p, s)
    ensures SlotsApart(m, b)
  {
    forall p | p in b.live && Pg(m, p).sfn != -1
      ensures 0 <= Pg(m, p).sfn < 1024 && Pg(m, p).sfn !in b.slots && Pg(m, p).dirty && Pg(m, p).pfn == -1
    {
      assert PageOk(m, b, -1, p);
    }
    forall s: nat | s < 1024 && s !in b.slots ensures exists p :: p in b.live && HasSlot(m, p, s) {
      assert SlotOk(m, b, s);
      var p :| p in b.live && Pg(m, p).sfn == s;
      assert HasSlot(m, p, s);
    }
  }

  // Every slot that is not free has its page.
  lemma SwappedCount(m: Vm, b: Book)
    requires Owned(m, b, -1)
    ensures |SwappedPages(m, b)| + |b.slots| == 1024
  {
    hide Owned, Pg, Below, SwappedPages, Members;
    SlotFacts(m, b);
    SwappedHave(m, b);
    var xs := Below(1024) - Members(b.slots);
    var ps := SwappedPages(m, b);
    forall x | x in xs ensures exists p :: p in ps && HasSlot(m, p, x) {
      var p :| p in b.live && HasSlot(m, p, x);
      assert p in ps;
    }
    SlotsMatch(m, ps, xs);
    MembersCount(b.slots);
    SplitCount(Below(1024), Members(b.slots));
  }

  lemma SplitCount(s: set<nat>, t: set<nat>)
    requires t <= s
    ensures |s - t| + |t| == |s|
  {
    assert s == (s - t) + t;
  }

  lemma SwappedHave(m: Vm, b: Book)
    requires Owned(m, b, -1)
    ensures forall p :: p in SwappedPages(m, b) ==> 0 <= Pg(m, p).sfn < 1024 && Pg(m, p).sfn !in b.slots
    ensures forall p, q :: p in SwappedPages(m, b) && q in SwappedPages(m, b) && p != q ==> Pg(m, p).sfn != Pg(m, q).sfn
  {
    SlotFacts(m, b);
    hide Owned;
  }

  // The writable pages in n frames.
  ghost function RunPages(m: Vm, frame: nat, n: nat): set<nat> {
    if n == 0 then {}
    else RunPages(m, frame, n - 1) + if WritableIn(m, frame + n - 1) then {PdOf(m, frame + n - 1) as nat} else {}
  }

  // Frames of a run the kernel does not have hold each its own page.
  lemma {:induction false} RunCount(m: Vm, b: Book, frame: nat, n: nat)
    requires Owned(m, b, -1) && m.low <= frame && Idle(m.kern, frame, n)
    ensures |RunPages(m, frame, n)| == Writables(m, frame, n)
    ensures forall p :: p in RunPages(m, frame, n) ==> p in b.live && Pg(m, p).dirty && frame <= Pg(m, p).pfn < frame + n
  {
    hide Owned, Idle, WritableIn, PdOf, Pg;
    if n > 0 {
      IdleLast(m.kern, frame, n);
      RunCount(m, b, frame, n - 1);
      if WritableIn(m, frame + n - 1) { WritableHolds(m, b, frame + n - 1); }
    }
  }

  lemma IdleLast(kern: seq<nat>, frame: nat, n: nat)
    requires n > 0 && Idle(kern, frame, n)
    ensures Idle(kern, frame, n - 1) && frame + n <= |kern| && kern[frame + n - 1] == 0
  {
  }

  // A frame with a writable page holds a live dirty one that knows where it is.
  lemma WritableHolds(m: Vm, b: Book, g: nat)
    requires Owned(m, b, -1) && m.low <= g < |m.kern| && m.kern[g] == 0 && WritableIn(m, g)
    ensures PdOf(m, g) >= 0
    ensures var p := PdOf(m, g) as nat; p in b.live && Pg(m, p).dirty && Pg(m, p).pfn == g
  {
    assert Shape(m) && FrameOk(m, b, -1, g);
    hide Owned;
  }

  // Swap runs out only with more writable pages than slots.
  lemma SwapLimit(m: Vm, b: Book, frame: nat, n: nat)
    requires Owned(m, b, -1) && m.low <= frame && Idle(m.kern, frame, n) && Writables(m, frame, n) > |b.slots|
    ensures |DirtyPages(m, b)| > 1024
  {
    hide Owned, Pg, Idle, Writables, RunPages;
    SlotFacts(m, b);
    RunCount(m, b, frame, n);
    SwappedCount(m, b);
    var s, r, d := SwappedPages(m, b), RunPages(m, frame, n), DirtyPages(m, b);
    assert s * r == {};
    assert s + r <= d;
    SetsCount(s, r, d);
  }

  lemma SetsCount(s: set<nat>, r: set<nat>, d: set<nat>)
    requires s * r == {} && s + r <= d
    ensures |s| + |r| <= |d|
  {
    assert |s + r| == |s| + |r|;
    assert d == (s + r) + (d - (s + r));
  }

  // The same for the page the clock takes, with no slot free.
  lemma ClockLimit(m: Vm, b: Book, c: nat, k: nat, w: nat)
    requires Owned(m, b, -1) && b.frames == [] && c < m.size - m.low && Stops(m, c, k, w) && DirtyAt(m, c, k) && b.slots == []
    ensures |DirtyPages(m, b)| > 1024
  {
    StopFacts(m, b, c, k, w);
    var f := ClockAt(m, c, k);
    assert Shape(m) && FrameOk(m, b, -1, f);
    assert Idle(m.kern, f, 1);
    assert Writables(m, f, 0) == 0;
    assert WritableIn(m, f) && Writables(m, f, 1) == 1;
    hide Owned, Stops;
    SwapLimit(m, b, f, 1);
  }
}
