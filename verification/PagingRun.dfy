// Virtual memory as a process sees it: each page holds what was last stored in it, or
// what the executable holds. Every run of the paging code is a run of this.
module PagingRun {
  import opened Chains
  import opened PagingState
  import opened PagingSteps
  import opened PagingClock
  import opened PagingFacts
  import opened PagingLimits
  import opened CoreMaps

  datatype Content = Content(writable: bool, data: Data)

  type Space = map<nat, Content>

  datatype Op =
    | Create(ids: seq<nat>, vbase: nat, writable: bool, data: seq<Data>)
    | Read(p: nat)
    | Write(p: nat, d: Data)
    | Exit(segs: seq<Segment>)
    | KernelRequest(num: nat)
    | KernelRelease(frame: nat)
    | KernelStore(frame: nat, d: Data)

  // The outcome, the bytes read, the first frame of a kernel request, and the number of
  // frames a release gave back.
  datatype Reply = Reply(out: Outcome, data: Data, frame: nat, count: nat)

  // Kernel requests out: the first frame of each and how many frames it has.
  type Requests = map<nat, nat>

  // The pages, the kernel requests out, and the kernel's frames.
  datatype State = State(space: Space, out: Requests, kern: set<nat>)

  // What each call does to the pages: only stores and page tables coming and going
  // change what there is to see.
  ghost predicate AbsStep(s: Space, op: Op, r: Reply, s': Space) {
    match op
    case Create(ids, _, w, data) =>
      && |data| == |ids| && s'.Keys == s.Keys + Members(ids)
      && (forall i :: 0 <= i < |ids| ==> ids[i] in s' && s'[ids[i]] == Content(w, data[i]))
      && (forall p :: p in s ==> p in s' && s'[p] == s[p])
    case Read(p) => s' == s && p in s && r.data == s[p].data
    case Write(p, d) => p in s && s' == s[p := Content(true, d)]
    case Exit(segs) => s' == s - PagesOf(segs)
    case _ => s' == s
  }

  // A process uses its own pages, stores only where its segment lets it, and gives up
  // whole page tables; frames the kernel releases are frames of the machine.
  predicate Allowed(s: Space, size: nat, op: Op) {
    match op
    case Create(ids, _, _, data) => |data| == |ids| && Distinct(ids) && forall i :: 0 <= i < |ids| ==> ids[i] !in s
    case Read(p) => p in s
    case Write(p, _) => p in s && s[p].writable
    case Exit(segs) => SegmentsApart(segs) && PagesOf(segs) <= s.Keys
    case KernelRequest(num) => num > 0
    case KernelRelease(frame) => frame < size
    case KernelStore(_, _) => true
  }

  ghost predicate Shows(c: CoreMap, s: Space)
    reads c
  {
    && c.book.live == s.Keys
    && (forall p :: p in s ==> Shown(c.View(), p) == s[p].data && Pg(c.View(), p).dirty == s[p].writable)
  }

  // The kernel's frames.
  ghost function KernSet(c: CoreMap): (k: set<nat>)
    reads c
    ensures forall g: nat :: g in k <==> KernOf(c.View(), g) > 0
  {
    set g: nat | g < |c.kern| && c.kern[g] > 0
  }

  function WritablePages(s: Space): (w: set<nat>)
    ensures forall p :: p in w <==> p in s && s[p].writable
  {
    set p | p in s && s[p].writable
  }

  // Why no frame can be found for a page: the kernel has them all, or there are more
  // writable pages than slots of swap.
  ghost predicate NoFrame(low: nat, size: nat, a: State, end: Outcome) {
    match end
    case AllKernel => forall g :: low <= g < size ==> g in a.kern
    case SwapFull => |WritablePages(a.space)| > 1024
    case _ => false
  }

  lemma DirtyWritable(c: CoreMap, s: Space)
    requires Shows(c, s)
    ensures WritablePages(s) == DirtyPages(c.View(), c.book)
  {
    hide Shown, Pg;
  }

  // What the panics of a page-in come to.
  lemma NoFrameIs(c: CoreMap, s: Space, p: nat)
    requires c.Valid() && Shows(c, s) && p in s
    ensures c.book.frames == [] && (forall g :: c.low <= g < c.size ==> !IsUser(c.View(), g)) ==>
              NoFrame(c.low, c.size, State(s, map[], KernSet(c)), AllKernel)
    ensures forall k, w ::
              c.book.frames == [] && c.book.slots == [] && Stops(UsedVm(c.View(), p), c.clock, k, w) && DirtyAt(UsedVm(c.View(), p), c.clock, k) ==>
              NoFrame(c.low, c.size, State(s, map[], KernSet(c)), SwapFull)
  {
    var m, b := c.View(), c.book;
    if b.frames == [] && forall g :: c.low <= g < c.size ==> !IsUser(m, g) {
      AllKernelFrames(m, b);
    }
    UsedStep(m, b, p);
    hide Owned, Runs, Stops, DirtyAt, Shown;
    c.ClockBound();
    forall k, w | b.frames == [] && b.slots == [] && Stops(UsedVm(m, p), c.clock, k, w) && DirtyAt(UsedVm(m, p), c.clock, k)
      ensures NoFrame(c.low, c.size, State(s, map[], KernSet(c)), SwapFull)
    {
      ClockLimit(UsedVm(m, p), b, c.clock, k, w);
      DirtyWritable(c, s);
      UsedDirty(m, b, p);
    }
  }

  lemma UsedDirty(m: Vm, b: Book, p: nat)
    ensures DirtyPages(UsedVm(m, p), b) == DirtyPages(m, b)
  {
    assert forall q: nat :: Pg(UsedVm(m, p), q).dirty == Pg(m, q).dirty;
  }

  lemma AllKernelFrames(m: Vm, b: Book)
    requires Owned(m, b, -1) && b.frames == [] && forall g :: m.low <= g < m.size ==> !IsUser(m, g)
    ensures forall g :: m.low <= g < m.size ==> KernOf(m, g) > 0
  {
    forall g | m.low <= g < m.size ensures KernOf(m, g) > 0 {
      assert FrameOk(m, b, -1, g);
    }
  }

  // A read or a store goes through a page-in; the page is then in memory.
  method DoRead(c: CoreMap, s: Space, p: nat) returns (r: Reply)
    requires c.Valid() && Shows(c, s) && p in s
    modifies c
    ensures r.out == Done ==> c.Valid() && Shows(c, s) && r.data == s[p].data && c.held == old(c.held) && c.kern == old(c.kern)
    ensures r.out != Done ==> NoFrame(c.low, c.size, State(s, map[], old(KernSet(c))), r.out)
  {
    hide CoreMap.Valid, Shown, Pg, IsUser, Stops, DirtyAt, UsedVm, NoFrame, KernSet;
    ghost var k, w;
    var out;
    NoFrameIs(c, s, p);
    out, k, w := c.PageIn(p);
    if out != Done {
      return Reply(out, [], 0, 0);
    }
    ShownInFrame(c, p);
    return Reply(Done, c.phys[c.pages[p].pfn], 0, 0);
  }

  lemma ShownInFrame(c: CoreMap, p: nat)
    requires c.Valid() && p in c.book.live && Pg(c.View(), p).pfn != -1
    ensures p in c.pages && 0 <= c.pages[p].pfn < |c.phys| && c.phys[c.pages[p].pfn] == Shown(c.View(), p)
  {
    hide Owned, CoreMap.Linked, Runs;
    PageFacts(c.View(), c.book, -1, p);
  }

  method DoWrite(c: CoreMap, s: Space, p: nat, d: Data) returns (r: Reply, s': Space)
    requires c.Valid() && Shows(c, s) && p in s && s[p].writable
    modifies c
    ensures r.out == Done ==> c.Valid() && Shows(c, s') && s' == s[p := Content(true, d)] && c.held == old(c.held) && c.kern == old(c.kern)
    ensures r.out != Done ==> NoFrame(c.low, c.size, State(s, map[], old(KernSet(c))), r.out)
  {
    hide CoreMap.Valid, Shown, IsUser, Stops, DirtyAt, UsedVm, NoFrame, KernSet;
    ghost var k, w;
    var out;
    NoFrameIs(c, s, p);
    out, k, w := c.PageIn(p);
    s' := s[p := Content(true, d)];
    if out == Done {
      c.UserWrite(p, d);
    }
    r := Reply(out, [], 0, 0);
  }

  method Grow(s: Space, op: Op) returns (s': Space)
    requires op.Create? && |op.data| == |op.ids| && Distinct(op.ids) && forall i :: 0 <= i < |op.ids| ==> op.ids[i] !in s
    ensures AbsStep(s, op, Reply(Done, [], 0, 0), s')
  {
    s' := s;
    assert op.ids[..0] == [];
    for i := 0 to |op.ids|
      invariant s'.Keys == s.Keys + Members(op.ids[..i])
      invariant forall j :: 0 <= j < i ==> op.ids[j] in s' && s'[op.ids[j]] == Content(op.writable, op.data[j])
      invariant forall p :: p in s ==> s'[p] == s[p]
    {
      MembersNext(op.ids, i);
      s' := s'[op.ids[i] := Content(op.writable, op.data[i])];
    }
    assert op.ids[..|op.ids|] == op.ids;
  }

  method DoCreate(c: CoreMap, s: Space, op: Op) returns (s': Space)
    requires c.Valid() && Shows(c, s) && op.Create? && Allowed(s, 0, op)
    modifies c
    ensures c.Valid() && Shows(c, s') && AbsStep(s, op, Reply(Done, [], 0, 0), s') && c.held == old(c.held) && c.kern == old(c.kern)
  {
    hide CoreMap.Valid, Shown, Pg;
    s' := Grow(s, op);
    c.PtCreate(op.ids, op.vbase, op.writable, op.data);
    forall p | p in s' ensures Shown(c.View(), p) == s'[p].data && Pg(c.View(), p).dirty == s'[p].writable {
      if p !in s {
        assert p in Members(op.ids);
        var i :| 0 <= i < |op.ids| && op.ids[i] == p;
      }
    }
  }

  method DoExit(c: CoreMap, s: Space, segs: seq<Segment>) returns (s': Space)
    requires c.Valid() && Shows(c, s) && SegmentsApart(segs) && PagesOf(segs) <= s.Keys
    modifies c
    ensures c.Valid() && Shows(c, s') && s' == s - PagesOf(segs) && c.held == old(c.held) && c.kern == old(c.kern)
  {
    hide CoreMap.Valid, Shown, Pg, PagesOf, SegmentsApart;
    c.FreeSegments(segs);
    s' := s - PagesOf(segs);
  }

  // The requests, without what the code cannot tell of them.
  function Sizes(held: map<nat, Request>): Requests {
    map h | h in held :: held[h].num
  }

  // The requests that have none of n frames.
  function Clear(out: Requests, frame: nat, n: nat): Requests {
    map h | h in out && (h + out[h] <= frame || frame + n <= h) :: out[h]
  }

  lemma SizesApart(held: map<nat, Request>, frame: nat, n: nat)
    ensures Sizes(Apart(held, frame, n)) == Clear(Sizes(held), frame, n)
  {
  }

  // Frames frame to frame + n.
  function Frames(frame: nat, n: nat): (s: set<nat>)
    ensures forall g: nat :: g in s <==> frame <= g < frame + n
  {
    if n == 0 then {} else Frames(frame, n - 1) + {frame + n - 1}
  }

  // num frames from i on that the kernel does not have.
  predicate Gap(kern: set<nat>, i: nat, num: nat) {
    forall j :: i <= j < i + num ==> j !in kern
  }

  // The lowest such frames of the machine.
  ghost predicate FirstGap(low: nat, size: nat, kern: set<nat>, num: nat, frame: nat) {
    && low <= frame && frame + num <= size && Gap(kern, frame, num)
    && forall i: nat :: low <= i < frame ==> !Gap(kern, i, num)
  }

  lemma GapIsIdle(c: CoreMap, i: nat, num: nat)
    requires c.Valid() && c.low <= i && i + num <= c.size
    ensures Idle(c.kern, i, num) <==> Gap(KernSet(c), i, num)
  {
    hide Owned, CoreMap.Linked, Runs;
    ShapeOf(c.View(), c.book, -1);
    var k := KernSet(c);
    if Idle(c.kern, i, num) {
      forall j | i <= j < i + num ensures j !in k {
        assert c.kern[j] == 0;
      }
    }
    if Gap(k, i, num) {
      forall j | i <= j < i + num ensures c.kern[j] == 0 {
        assert KernOf(c.View(), j) == 0;
      }
    }
  }

  lemma GapsAreIdle(c: CoreMap, num: nat)
    requires c.Valid()
    ensures forall i: nat :: c.low <= i && i + num <= c.size ==> (Idle(c.kern, i, num) <==> Gap(KernSet(c), i, num))
    ensures |c.kern| == c.size && c.low < c.size
  {
    hide Idle, Gap, KernSet;
    forall i: nat | c.low <= i && i + num <= c.size ensures Idle(c.kern, i, num) <==> Gap(KernSet(c), i, num) {
      GapIsIdle(c, i, num);
    }
    ShapeOf(c.View(), c.book, -1);
  }

  method DoRequest(c: CoreMap, s: Space, num: nat) returns (r: Reply)
    requires c.Valid() && Shows(c, s) && num > 0
    modifies c
    ensures r.out == Done ==> c.Valid() && Shows(c, s)
    ensures r.out == Done ==> Clear(Sizes(old(c.held)), r.frame, num) == Sizes(old(c.held)) && Sizes(c.held) == Sizes(old(c.held))[r.frame := num]
    ensures r.out == Done ==> FirstGap(c.low, c.size, old(KernSet(c)), num, r.frame) && KernSet(c) == old(KernSet(c)) + Frames(r.frame, num)
    ensures r.out == Done || r.out == NoRun || r.out == SwapFull
    ensures r.out == NoRun ==> forall i: nat :: c.low <= i && i + num <= c.size ==> !Gap(old(KernSet(c)), i, num)
    ensures r.out == SwapFull ==> |WritablePages(s)| > 1024
  {
    hide CoreMap.Valid, Shown, Pg, Idle, FreeAt, Apart, Clear, Gap, KernSet, WritablePages, Writables, ClaimedCount, Frames;
    ghost var m, b := c.View(), c.book;
    GapsAreIdle(c, num);
    InOrderView(c);
    DirtyWritable(c, s);
    var out, frame := c.RequestKframes(num);
    SizesApart(old(c.held), frame, num);
    if out == SwapFull { SwapLimit(m, b, frame, num); }
    if out != NoRun { IdleBound(m.kern, frame, num); }
    if out == Done { ClaimedSet(c, m, frame, num, old(KernSet(c))); }
    r := Reply(out, [], frame, 0);
  }

  lemma InOrderView(c: CoreMap)
    requires c.Valid()
    ensures Owned(c.View(), c.book, -1)
  {
    hide Owned, CoreMap.Linked, Runs;
  }

  lemma ClaimedSet(c: CoreMap, m: Vm, frame: nat, num: nat, k: set<nat>)
    requires |c.kern| == |m.kern| && num > 0 && forall g :: 0 <= g < |c.kern| ==> c.kern[g] == ClaimedCount(m, frame, num, g)
    requires (forall g: nat :: g in k <==> KernOf(m, g) > 0) && frame + num <= |c.kern|
    ensures KernSet(c) == k + Frames(frame, num)
  {
  }

  method DoRelease(c: CoreMap, s: Space, frame: nat) returns (r: Reply)
    requires c.Valid() && Shows(c, s) && frame < c.size
    modifies c
    ensures r.out == Done || r.out == BadRelease
    ensures r.out == Done ==> c.Valid() && Shows(c, s) && Sizes(c.held) == Clear(Sizes(old(c.held)), frame, r.count)
    ensures frame in old(c.held) ==> r.out == Done && Sizes(c.held) == Sizes(old(c.held)) - {frame} && r.count <= Sizes(old(c.held))[frame]
    ensures r.out == Done ==> r.count > 0 && Frames(frame, r.count) <= old(KernSet(c)) && KernSet(c) == old(KernSet(c)) - Frames(frame, r.count)
    ensures frame !in old(KernSet(c)) ==> r.out == BadRelease
  {
    hide CoreMap.Valid, Shown, Pg, Apart, Clear;
    ghost var m := c.View();
    if frame in c.held { HeldReleasable(c, frame); }
    var out, n := c.ReleaseKframes(frame);
    SizesApart(old(c.held), frame, n);
    if out == Done { ReleasedSet(c, m, frame, n, old(KernSet(c))); }
    r := Reply(out, [], 0, n);
  }

  lemma HeldReleasable(c: CoreMap, frame: nat)
    requires c.Valid() && frame in c.held
    ensures Releasable(c.View(), frame) && KernOf(c.View(), frame) <= c.held[frame].num
  {
    hide Owned, CoreMap.Linked;
    RunFacts(c.kern, c.low, c.held, frame);
  }

  lemma ReleasedSet(c: CoreMap, m: Vm, frame: nat, n: nat, k: set<nat>)
    requires |c.kern| == |m.kern| && forall g :: 0 <= g < |c.kern| ==> c.kern[g] == if frame <= g < frame + n then 0 else m.kern[g]
    requires (forall g: nat :: g in k <==> KernOf(m, g) > 0) && Releasable(m, frame) && n == KernOf(m, frame)
    ensures n > 0 && Frames(frame, n) <= k && KernSet(c) == k - Frames(frame, n)
  {
  }

  method DoStore(c: CoreMap, s: Space, f: nat, d: Data)
    requires c.Valid() && Shows(c, s)
    modifies c
    ensures c.Valid() && Shows(c, s) && c.held == old(c.held) && c.kern == old(c.kern)
  {
    hide Shown, Pg, Owned, CoreMap.Linked, Runs;
    ShapeOf(c.View(), c.book, -1);
    if c.low <= f < c.size && c.kern[f] > 0 {
      c.KernelWrite(f, d);
    }
  }

  // ---- Every run ----

  // A request gets the lowest frames the kernel does not have. A release takes frames from
  // every request that has some of them, and from no other if they are its own.
  ghost predicate KernelStep(low: nat, size: nat, a: State, op: Op, r: Reply, a': State) {
    match op
    case KernelRequest(num) =>
      && FirstGap(low, size, a.kern, num, r.frame) && a'.kern == a.kern + Frames(r.frame, num)
      && Clear(a.out, r.frame, num) == a.out && a'.out == a.out[r.frame := num]
    case KernelRelease(frame) =>
      && r.count > 0 && Frames(frame, r.count) <= a.kern && a'.kern == a.kern - Frames(frame, r.count)
      && a'.out == Clear(a.out, frame, r.count) && (frame in a.out ==> a'.out == a.out - {frame} && r.count <= a.out[frame])
    case _ => a'.out == a.out && a'.kern == a.kern
  }

  // A call that may not be made is not made.
  ghost predicate RunStep(low: nat, size: nat, a: State, op: Op, r: Reply, a': State) {
    if Allowed(a.space, size, op)
    then AbsStep(a.space, op, r, a'.space) && KernelStep(low, size, a, op, r, a')
    else a' == a
  }

  // Why a call ends the run: a panic or a failed assertion, each with its reason.
  ghost predicate Ends(low: nat, size: nat, a: State, op: Op, end: Outcome) {
    && Allowed(a.space, size, op)
    && match op
       case Read(_) => NoFrame(low, size, a, end)
       case Write(_, _) => NoFrame(low, size, a, end)
       case KernelRequest(num) =>
         if end == NoRun then forall i: nat :: low <= i && i + num <= size ==> !Gap(a.kern, i, num)
         else end == SwapFull && |WritablePages(a.space)| > 1024
       case KernelRelease(frame) => end == BadRelease && frame !in a.out
       case _ => false
  }

  ghost predicate Tracks(c: CoreMap, a: State)
    reads c
  {
    c.Valid() && Shows(c, a.space) && Sizes(c.held) == a.out && KernSet(c) == a.kern
  }

  function After(a: State, s': Space, op: Op, r: Reply): State {
    match op
    case KernelRequest(num) => State(s', a.out[r.frame := num], a.kern + Frames(r.frame, num))
    case KernelRelease(frame) => State(s', Clear(a.out, frame, r.count), a.kern - Frames(frame, r.count))
    case _ => State(s', a.out, a.kern)
  }

  method Perform(c: CoreMap, a: State, op: Op) returns (r: Reply, a': State)
    requires Tracks(c, a)
    modifies c
    ensures r.out == Done ==> Tracks(c, a') && RunStep(c.low, c.size, a, op, r, a')
    ensures r.out != Done ==> Ends(c.low, c.size, a, op, r.out)
  {
    hide CoreMap.Valid, Shows, Clear, FirstGap, Gap, Frames, WritablePages;
    r, a' := Reply(Done, [], 0, 0), a;
    if !Allowed(a.space, c.size, op) {
      return;
    }
    var s' := a.space;
    match op {
      case Create(_, _, _, _) => s' := DoCreate(c, a.space, op);
      case Read(p) => r := DoRead(c, a.space, p);
      case Write(p, d) => r, s' := DoWrite(c, a.space, p, d);
      case Exit(segs) => s' := DoExit(c, a.space, segs);
      case KernelRequest(num) => r := DoRequest(c, a.space, num);
      case KernelRelease(frame) => r := DoRelease(c, a.space, frame);
      case KernelStore(f, d) => DoStore(c, a.space, f, d);
    }
    a' := After(a, s', op, r);
  }

  // The states a run passes through.
  ghost predicate IsRun(low: nat, size: nat, trace: seq<State>, ops: seq<Op>, replies: seq<Reply>) {
    && |trace| == |ops| + 1 && |replies| == |ops|
    && (forall i :: 0 <= i < |ops| ==> RunStep(low, size, trace[i], ops[i], replies[i], trace[i + 1]))
  }

  lemma RunExtended(low: nat, size: nat, trace: seq<State>, ops: seq<Op>, replies: seq<Reply>, op: Op, r: Reply, a: State)
    requires IsRun(low, size, trace, ops, replies) && RunStep(low, size, trace[|ops|], op, r, a)
    ensures IsRun(low, size, trace + [a], ops + [op], replies + [r])
  {
    hide RunStep;
  }

  // Every sequence of calls, from the boot on and up to a panic or failed assertion, is a run
  // of the specification; and the call it ends at has a reason to end it.
  method Run(low: nat, size: nat, phys: seq<Data>, swap: seq<Data>, ops: seq<Op>)
    returns (done: nat, end: Outcome, replies: seq<Reply>, ghost trace: seq<State>)
    requires low < size == |phys| && |swap| == 1024
    ensures done <= |ops| && (end == Done <==> done == |ops|)
    ensures IsRun(low, size, trace, ops[..done], replies) && trace[0] == State(map[], map[], {})
    ensures done < |ops| ==> Ends(low, size, trace[done], ops[done], end)
  {
    hide RunStep, Tracks, CoreMap.Valid, Shows, Ends;
    var c := new CoreMap(low, size, phys, swap);
    var a := State(map[], map[], {});
    FreshShown(c);
    done, end, replies, trace := 0, Done, [], [a];
    while done < |ops|
      invariant fresh(c) && c.low == low && c.size == size && Tracks(c, a) && end == Done
      invariant done <= |ops| && IsRun(low, size, trace, ops[..done], replies) && trace[0] == State(map[], map[], {}) && trace[done] == a
    {
      var r, a' := Perform(c, a, ops[done]);
      if r.out != Done {
        end := r.out;
        return;
      }
      RunExtended(low, size, trace, ops[..done], replies, ops[done], r, a');
      assert ops[..done] + [ops[done]] == ops[..done + 1];
      a := a';
      replies, trace := replies + [r], trace + [a];
      done := done + 1;
    }
  }

  lemma FreshShown(c: CoreMap)
    requires c.Valid() && c.book.live == {} && c.held == map[] && c.kern == seq(c.size, _ => 0)
    ensures Tracks(c, State(map[], map[], {}))
  {
    assert KernSet(c) == {};
  }

  // ---- What a kernel request costs ----

  // A request gets the lowest idle run. Releasing it gives back all of its frames exactly
  // if it is for one frame or the first frame of that run is not free; the others can
  // still be released one at a time.
  method RequestAndRelease(c: CoreMap, num: nat) returns (out: Outcome, frame: nat, returned: nat)
    requires c.Valid() && num > 0
    modifies c
    ensures out == Done ==> c.low <= frame && Idle(old(c.kern), frame, num) && forall i: nat :: c.low <= i < frame ==> !Idle(old(c.kern), i, num)
    ensures out == Done ==> c.Valid() && (returned == num <==> num == 1 || !old(FreeAt(c.View(), frame)))
    ensures out == Done ==> returned == if old(FreeAt(c.View(), frame)) then 1 else num
    ensures out == Done ==> forall g :: frame + returned <= g < frame + num ==> Releasable(c.View(), g)
  {
    hide Owned, CoreMap.Linked, SameShown, Idle, Apart, Writables;
    returned := 0;
    out, frame := c.RequestKframes(num);
    if out == Done {
      RunFacts(c.kern, c.low, c.held, frame);
      var released;
      released, returned := c.ReleaseKframes(frame);
      assert released == Done;
    }
  }

  // Two frames asked of a fresh machine: releasing them gives back one.
  method LostFrame(phys: seq<Data>, swap: seq<Data>) returns (c: CoreMap, returned: nat)
    requires |phys| == 3 && |swap| == 1024
    ensures fresh(c) && c.Valid() && returned == 1 && c.held == map[] && c.kern == [0, 0, 1]
  {
    hide Owned, CoreMap.Linked, SameShown;
    c := new CoreMap(1, 3, phys, swap);
    AllFree(c);
    assert Idle(c.kern, 1, 2);
    var out, frame := c.RequestKframes(2);
    assert frame == 1;
    out, returned := c.ReleaseKframes(frame);
  }

  lemma AllFree(c: CoreMap)
    requires c.Valid() && c.low == 1 && c.size == 3 && c.book.frames == Downward(1, 3)
    ensures |c.kern| == 3 && c.kern[1] == 0 && c.kern[2] == 0 && FreeAt(c.View(), 1) && FreeAt(c.View(), 2)
    ensures Writables(c.View(), 1, 2) == 0
  {
    hide CoreMap.Linked, Runs;
    assert c.book.frames[0] == 2 && c.book.frames[1] == 1;
    assert FrameOk(c.View(), c.book, -1, 1) && FrameOk(c.View(), c.book, -1, 2);
    assert Writables(c.View(), 1, 1) == 0;
  }
}
