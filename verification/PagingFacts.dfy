// What the operations of the core map need to know of the steps they are made of.
module PagingFacts {
  import opened Chains
  import opened FrameLists
  import opened PagingState
  import opened PagingSteps
  import opened PagingClock

  // The page in frame f went to swap, or nowhere if it is read-only; frame f is
  // between roles.
  ghost predicate Evicted(m: Vm, b: Book, m': Vm, b': Book, f: nat) {
    && f < |m.pd| && m.pd[f] >= 0
    && Owned(m', b', f) && SameShown(m, b, m', b') && b' == EvictBook(m, b, m.pd[f])
    && (exists s: nat :: s < 1024 && Shape(m) && m' == EvictVm(m, f, s) && FirstSlot(m, b, f, s))
  }

  // A page that has to go to swap goes to the first free slot.
  predicate FirstSlot(m: Vm, b: Book, f: nat, s: nat) {
    PdOf(m, f) >= 0 && Pg(m, PdOf(m, f)).dirty ==> |b.slots| > 0 && s == b.slots[0]
  }

  // Page p came to frame f. The page that was there, if any, is in swap or nowhere; every
  // other page is as v has it.
  ghost predicate PagedIn(v: Vm, b: Book, m': Vm, f: nat, p: nat) {
    && f < |v.pd| && m'.pd == v.pd[f := p] && Pg(m', p) == FilledPage(Pg(v, p), f)
    && (forall q :: q in b.live && q != p ==> if Pg(v, q).pfn == f then Displaced(v, b, m', q) else Pg(m', q) == Pg(v, q))
  }

  predicate Displaced(v: Vm, b: Book, m': Vm, q: nat) {
    && !Pg(m', q).valid && !Pg(m', q).use && Pg(m', q).pfn == -1
    && Pg(m', q).vaddr == Pg(v, q).vaddr && Pg(m', q).dirty == Pg(v, q).dirty
    && (if Pg(v, q).dirty then b.slots != [] && Pg(m', q).sfn == b.slots[0] else Pg(m', q).sfn == -1)
  }

  lemma PagedInByClock(v: Vm, b: Book, m2: Vm, b2: Book, f: nat, p: nat)
    requires Owned(v, b, -1) && v.low <= f < v.size && IsUser(v, f) && Evicted(v, b, m2, b2, f)
    requires p in b.live && Pg(v, p).pfn == -1 && Pg(v, p).use
    ensures Shape(m2) && PagedIn(v, b, FillVm(m2, f, p), f, p) && FillBook(m2, b2, p).frames == b.frames
  {
    Occupied(v, b, f);
    var s: nat :| s < 1024 && m2 == EvictVm(v, f, s) && FirstSlot(v, b, f, s);
    var e: nat := v.pd[f];
    assert forall q :: q in b.live && Pg(v, q).pfn == f ==> q == e by { OnlyOne(v, b, f); }
    ShapeOf(m2, b2, f);
    hide Owned, SameShown, Shown;
  }

  // Page p came in by the clock: the search went over m from c and took the k-th frame, where
  // the pointer stays.
  ghost predicate ByClock(m: Vm, b: Book, c: nat, k: nat, w: nat, p: nat, m': Vm, c': nat) {
    PagedIn(Swept(m, c, w), b, m', ClockAt(m, c, k), p) && c' == Turn(m, c, k)
  }

  lemma ByClockIs(m: Vm, b: Book, c: nat, k: nat, w: nat, p: nat, m2: Vm, b2: Book)
    requires Owned(m, b, -1) && b.frames == [] && c < m.size - m.low && Stops(m, c, k, w)
    requires Evicted(Swept(m, c, w), b, m2, b2, ClockAt(m, c, k))
    requires p in b.live && Pg(m, p).pfn == -1 && Pg(m, p).use
    ensures Shape(m2) && ClockAt(m, c, k) < m2.size && FillBook(m2, b2, p).frames == []
    ensures ByClock(m, b, c, k, w, p, FillVm(m2, ClockAt(m, c, k), p), Turn(m, c, k))
  {
    StopFacts(m, b, c, k, w);
    SweptElsewhere(m, b, c, k, w, p);
    hide Owned, Swept, Stops, Turn, Evicted, PagedIn;
    PagedInByClock(Swept(m, c, w), b, m2, b2, ClockAt(m, c, k), p);
    SameSize(Swept(m, c, w), b, m2, b2, ClockAt(m, c, k));
  }

  lemma SameSize(m: Vm, b: Book, m': Vm, b': Book, f: nat)
    requires Evicted(m, b, m', b', f)
    ensures m'.size == m.size && m'.low == m.low
  {
    hide Owned;
  }

  lemma UsedPage(m: Vm, p: nat)
    ensures Pg(UsedVm(m, p), p).use && Pg(UsedVm(m, p), p).pfn == Pg(m, p).pfn
  {
  }

  lemma OnlyOne(v: Vm, b: Book, f: nat)
    requires Owned(v, b, -1)
    ensures forall q :: q in b.live && Pg(v, q).pfn == f ==> PdOf(v, f) == q
  {
    forall q | q in b.live && Pg(v, q).pfn == f ensures PdOf(v, f) == q {
      assert PageOk(v, b, -1, q);
    }
  }

  lemma PagedInByPop(v: Vm, b: Book, p: nat)
    requires Owned(v, b, -1) && b.frames != [] && p in b.live && Pg(v, p).pfn == -1 && Pg(v, p).use && Shape(v)
    ensures b.frames[0] < |v.kern| && b.frames[0] < |v.free|
    ensures var m2 := TakeVm(v, b.frames[0]); Shape(m2) && PagedIn(v, b, FillVm(m2, b.frames[0], p), b.frames[0], p)
  {
    var f := b.frames[0];
    assert f in b.frames;
    assert FrameOk(v, b, -1, f);
    forall q | q in b.live ensures Pg(v, q).pfn != f {
      assert PageOk(v, b, -1, q);
    }
    hide Owned, Shown;
  }

  lemma Occupied(m: Vm, b: Book, f: nat)
    requires Owned(m, b, -1) && m.low <= f < m.size && IsUser(m, f)
    ensures Shape(m) && f < |m.pd| && m.pd[f] >= 0 && m.pd[f] in m.pages && m.pd[f] in b.live
    ensures Pg(m, m.pd[f]).pfn == f && Pg(m, m.pd[f]).sfn == -1
    ensures forall s :: s in b.slots ==> s < 1024
  {
    assert FrameOk(m, b, -1, f);
    assert PageOk(m, b, -1, m.pd[f]);
  }

  // Frame f is free to use, taken from the free list or from a page; pages that were
  // not in memory are as they were.
  ghost predicate Freed(m: Vm, b: Book, m': Vm, b': Book, f: nat) {
    && m.low <= f < m.size && m'.low == m.low && m'.size == m.size && Owned(m', b', f) && SameShown(m, b, m', b')
    && |m.kern| == m.size && m.kern[f] == 0 && |m'.kern| == m.size && m'.kern == m.kern[f := m'.kern[f]]
    && m'.phys == m.phys && m'.image == m.image
    && (forall p :: p in b.live && Pg(m, p).pfn == -1 ==> Pg(m', p) == Pg(m, p))
  }

  lemma ShapeOf(m: Vm, b: Book, t: int)
    requires Owned(m, b, t)
    ensures Shape(m)
  {
  }

  lemma FreedByPop(m: Vm, b: Book)
    requires Owned(m, b, -1) && b.frames != []
    ensures b.frames[0] < |m.kern| && b.frames[0] < |m.free|
    ensures Freed(m, b, TakeVm(m, b.frames[0]), b.(frames := RemoveAt(b.frames, 0)), b.frames[0])
  {
    var f := b.frames[0];
    assert f in b.frames && FrameOk(m, b, -1, f);
    RemoveAtMembers(b.frames, 0);
    assert forall p: nat :: Pg(TakeVm(m, f), p) == Pg(m, p);
    hide FrameOk, PageOk, SlotOk, SlotsApart, Distinct, RemoveAt;
    TakeStep(m, b, f, RemoveAt(b.frames, 0));
  }

  lemma FreedByClock(m: Vm, b: Book, c: nat, k: nat, w: nat, m': Vm, b': Book)
    requires Owned(m, b, -1) && b.frames == [] && c < m.size - m.low && Stops(m, c, k, w)
    requires Evicted(Swept(m, c, w), b, m', b', ClockAt(m, c, k))
    ensures Freed(m, b, m', b', ClockAt(m, c, k))
  {
    var v, f := Swept(m, c, w), ClockAt(m, c, k);
    StopFacts(m, b, c, k, w);
    ShapeOf(m, b, -1);
    SweptOnlyUse(m, b, c, w);
    forall p | p in b.live && Pg(m, p).pfn == -1 ensures Pg(m', p) == Pg(m, p) {
      SweptElsewhere(m, b, c, k, w, p);
    }
    hide Owned, Swept, Stops, ClockAt;
  }

  // A kernel request: num frames, the first of which was free when asked for.
  datatype Request = Request(num: nat, firstFree: bool)

  // Kernel requests still out: consecutive kernel frames, apart from each other, with
  // the count recorded in the first. No count reaches past the end of memory.
  ghost predicate Runs(kern: seq<nat>, low: nat, held: map<nat, Request>) {
    && (forall g :: 0 <= g < |kern| ==> g + kern[g] <= |kern|)
    && (forall h :: h in held ==> RunOk(kern, low, h, held[h]))
    && (forall h, g :: h in held && g in held && h != g ==> h + held[h].num <= g || g + held[g].num <= h)
  }

  ghost predicate RunOk(kern: seq<nat>, low: nat, h: nat, r: Request) {
    && low <= h && 0 < r.num && h + r.num <= |kern|
    && (forall i :: h <= i < h + r.num ==> kern[i] > 0)
    && kern[h] == if r.firstFree then 1 else r.num
  }

  // Page p with its use bit set.
  function UsedVm(m: Vm, p: nat): Vm {
    m.(pages := m.pages[p := Pg(m, p).(use := true)])
  }

  lemma UsedStep(m: Vm, b: Book, p: nat)
    requires Owned(m, b, -1) && p in b.live
    ensures Owned(UsedVm(m, p), b, -1) && SameShown(m, b, UsedVm(m, p), b)
  {
    assert PageOk(m, b, -1, p);
    hide Owned;
    UseStep(m, b, UsedVm(m, p));
  }

  lemma UsedUser(m: Vm, p: nat)
    ensures forall g :: IsUser(UsedVm(m, p), g) == IsUser(m, g)
  {
  }

  lemma PageFacts(m: Vm, b: Book, t: int, p: nat)
    requires Owned(m, b, t) && p in b.live
    ensures Shape(m) && p in m.pages && p in m.image && (m.pages[p].valid <==> m.pages[p].pfn != -1)
    ensures m.pages[p].pfn != -1 ==> m.low <= m.pages[p].pfn < m.size
    ensures m.pages[p].sfn != -1 ==> 0 <= m.pages[p].sfn < 1024 && m.pages[p].sfn !in b.slots
  {
    assert PageOk(m, b, t, p);
    hide FrameOk, SlotOk, SlotsApart;
  }

  lemma FreedFacts(m: Vm, b: Book, m': Vm, b': Book, f: nat, p: nat)
    requires Freed(m, b, m', b', f) && p in b.live && Pg(m, p).pfn == -1
    ensures m.low <= f < m.size && m'.low == m.low && m'.size == m.size && Owned(m', b', f)
    ensures SameShown(m, b, m', b') && b'.live == b.live && Pg(m', p) == Pg(m, p)
    ensures |m.kern| == m.size && m.kern[f] == 0 && |m'.kern| == m.size && m'.kern[f := 0] == m.kern && m'.image == m.image
    ensures Shape(m')
  {
    ShapeOf(m', b', f);
    hide Owned;
  }

  lemma FillFacts(m: Vm, t: nat, p: nat)
    requires Shape(m) && t < m.size
    ensures var m' := FillVm(m, t, p);
            m'.kern == m.kern[t := 0] && Pg(m', p).pfn == t && Pg(m', p).use && m'.image == m.image
  {
  }

  lemma SameThrice(m: Vm, b: Book, m1: Vm, m2: Vm, b2: Book, m3: Vm, b3: Book)
    requires SameShown(m, b, m1, b) && SameShown(m1, b, m2, b2) && SameShown(m2, b2, m3, b3)
    ensures SameShown(m, b, m3, b3) && b3.live == b.live
  {
    hide Shown, Pg;
  }

  // The num frames from i are not the kernel's.
  predicate Idle(kern: seq<nat>, i: nat, num: nat) {
    i + num <= |kern| && forall j :: i <= j < i + num ==> kern[j] == 0
  }

  // The kern fields once a run is claimed.
  function Marked(kern: seq<nat>, frame: nat, num: nat): (r: seq<nat>)
    ensures |r| == |kern|
  {
    seq(|kern|, g requires 0 <= g < |kern| =>
      if g == frame && num > 0 then num else if frame <= g < frame + num then 1 else kern[g])
  }

  // Frame i, free or holding a page before, is the kernel's with count n.
  ghost predicate Claimed(m: Vm, b: Book, m': Vm, b': Book, i: nat, n: nat) {
    && i < |m'.kern| && Owned(m'.(kern := m'.kern[i := n]), b', -1) && SameShown(m, b, m', b')
    && m'.low == m.low && m'.size == m.size && m'.kern == m.kern && m'.image == m.image
    && (forall g :: g != i ==> FreeAt(m', g) == FreeAt(m, g) && WritableIn(m', g) == WritableIn(m, g))
    && |b'.slots| == |b.slots| - if WritableIn(m, i) then 1 else 0
  }

  // Frame g holds a page that has to go to swap to make room.
  predicate WritableIn(m: Vm, g: int) {
    !FreeAt(m, g) && PdOf(m, g) >= 0 && Pg(m, PdOf(m, g)).dirty
  }

  // How many of n frames do.
  function Writables(m: Vm, frame: nat, n: nat): nat {
    if n == 0 then 0
    else Writables(m, frame, n - 1) + if WritableIn(m, frame + n - 1) then 1 else 0
  }

  lemma {:induction false} WritablesMore(m: Vm, frame: nat, i: nat, n: nat)
    requires i <= n
    ensures Writables(m, frame, i) <= Writables(m, frame, n)
  {
    if i < n {
      WritablesMore(m, frame, i, n - 1);
    }
  }

  lemma EvictedWritable(m: Vm, f: nat, s: nat)
    requires Shape(m) && f < m.size && m.pd[f] >= 0 && s < 1024
    ensures forall g :: g != f ==> FreeAt(EvictVm(m, f, s), g) == FreeAt(m, g) && WritableIn(EvictVm(m, f, s), g) == WritableIn(m, g)
  {
  }

  lemma ListedAt(m: Vm, b: Book, f: nat) returns (k: nat)
    requires Owned(m, b, -1) && m.low <= f < m.size && FreeAt(m, f)
    ensures k < |b.frames| && b.frames[k] == f
  {
    assert FrameOk(m, b, -1, f);
    k :| k < |b.frames| && b.frames[k] == f;
  }

  lemma TakenWritable(m: Vm, f: nat)
    requires Shape(m) && f < m.size
    ensures forall g :: g != f ==> WritableIn(TakeVm(m, f).(kern := m.kern), g) == WritableIn(m, g)
  {
  }

  lemma ClaimedFree(m: Vm, b: Book, i: nat, k: nat)
    requires Owned(m, b, -1) && m.low <= i < m.size && k < |b.frames| && b.frames[k] == i
    ensures Shape(m) && Claimed(m, b, TakeVm(m, i).(kern := m.kern), b.(frames := RemoveAt(b.frames, k)), i, 1)
  {
    var m', b' := TakeVm(m, i), b.(frames := RemoveAt(b.frames, k));
    RemoveAtMembers(b.frames, k);
    assert FrameOk(m, b, -1, i);
    hide FrameOk, PageOk, SlotOk, SlotsApart, Distinct, RemoveAt;
    TakeStep(m, b, i, b'.frames);
    TakenWritable(m, i);
    ToKernel(m', b', i, 1);
    SameKernIrrelevant(m, b, m', b', m.kern);
    assert m'.(kern := m.kern).(kern := m.kern[i := 1]) == m'.(kern := m'.kern[i := 1]);
  }

  lemma ClaimedUser(m: Vm, b: Book, m': Vm, b': Book, i: nat, n: nat)
    requires Evicted(m, b, m', b', i) && m.low <= i < m.size && n > 0 && Shape(m) && !FreeAt(m, i)
    requires WritableIn(m, i) ==> b.slots != []
    ensures Claimed(m, b, m', b', i, n)
  {
    var s: nat :| s < 1024 && m' == EvictVm(m, i, s);
    EvictedWritable(m, i, s);
    hide Owned, SameShown;
    ToKernel(m', b', i, n);
  }

  lemma SameKernIrrelevant(m: Vm, b: Book, m': Vm, b': Book, kv: seq<nat>)
    requires SameShown(m, b, m', b')
    ensures SameShown(m, b, m'.(kern := kv), b')
  {
    assert forall p: nat :: Shown(m'.(kern := kv), p) == Shown(m', p) && Pg(m'.(kern := kv), p) == Pg(m', p);
  }

  // The kern fields, those of the run from i on being what they were.
  function Mixed(k0: seq<nat>, k1: seq<nat>, frame: nat, i: nat): (r: seq<nat>)
    requires |k1| == |k0|
    ensures |r| == |k0|
  {
    seq(|k0|, g requires 0 <= g < |k0| => if frame <= g < i then k1[g] else k0[g])
  }

  // The frames of a run below i are claimed. The first lost its count if it was free.
  ghost predicate ClaimedUpTo(m0: Vm, b0: Book, m: Vm, b: Book, frame: nat, num: nat, i: nat) {
    && Shape(m0) && Shape(m) && m.low == m0.low && m.size == m0.size && m.image == m0.image
    && Owned(m.(kern := Mixed(m0.kern, m.kern, frame, i)), b, -1) && SameShown(m0, b0, m, b)
    && m.kern == (if frame < i && FreeAt(m0, frame) && frame < m.size then Marked(m0.kern, frame, num)[frame := 1] else Marked(m0.kern, frame, num))
    && (forall g :: g >= i ==> FreeAt(m, g) == FreeAt(m0, g) && WritableIn(m, g) == WritableIn(m0, g))
    && frame <= i && |b.slots| + Writables(m0, frame, i - frame) == |b0.slots|
  }

  lemma IdleBound(kern: seq<nat>, i: nat, num: nat)
    requires Idle(kern, i, num)
    ensures i + num <= |kern|
  {
  }

  lemma ClaimStarts(m: Vm, b: Book, frame: nat, num: nat)
    requires Owned(m, b, -1) && Idle(m.kern, frame, num)
    ensures ClaimedUpTo(m, b, m.(kern := Marked(m.kern, frame, num)), b, frame, num, frame)
  {
    ShapeOf(m, b, -1);
    var m' := m.(kern := Marked(m.kern, frame, num));
    assert Mixed(m.kern, m'.kern, frame, frame) == m.kern;
    assert m'.(kern := m.kern) == m;
    SameKernIrrelevant(m, b, m, b, m'.kern);
    hide Owned;
  }

  // What the next frame of the run is.
  lemma ClaimNow(m0: Vm, b0: Book, m: Vm, b: Book, frame: nat, num: nat, i: nat)
    requires ClaimedUpTo(m0, b0, m, b, frame, num, i) && Idle(m0.kern, frame, num) && frame <= i < frame + num
    ensures Shape(m) && Shape(m0) && |m.kern| == |m0.kern| && m.kern[i] > 0
    ensures Owned(m.(kern := Mixed(m0.kern, m.kern, frame, i)), b, -1)
    ensures KernOf(m.(kern := Mixed(m0.kern, m.kern, frame, i)), i) == 0
    ensures FreeAt(m, i) == FreeAt(m0, i) && WritableIn(m, i) == WritableIn(m0, i)
    ensures |b.slots| + Writables(m0, frame, i - frame) == |b0.slots|
  {
    hide Owned, SameShown, WritableIn;
  }

  lemma ClaimNext(m0: Vm, b0: Book, m: Vm, b: Book, m': Vm, b': Book, frame: nat, num: nat, i: nat)
    requires ClaimedUpTo(m0, b0, m, b, frame, num, i) && frame <= i < frame + num && Idle(m0.kern, frame, num)
    requires |m'.kern| == |m.kern| == |m0.kern| && i < |m.kern|
    requires m'.kern == if FreeAt(m, i) then m.kern[i := 1] else m.kern
    requires var kv := Mixed(m0.kern, m.kern, frame, i); Claimed(m.(kern := kv), b, m'.(kern := kv), b', i, m'.kern[i])
    ensures ClaimedUpTo(m0, b0, m', b', frame, num, i + 1)
  {
    var kv := Mixed(m0.kern, m.kern, frame, i);
    var kv' := Mixed(m0.kern, m'.kern, frame, i + 1);
    assert kv' == kv[i := m'.kern[i]];
    assert m'.(kern := kv).(kern := kv') == m'.(kern := kv');
    ShapeOf(m'.(kern := kv'), b', -1);
    SameKern(m.(kern := kv), b, m'.(kern := kv), b', m.kern, m'.kern);
    assert m.(kern := kv).(kern := m.kern) == m && m'.(kern := kv).(kern := m'.kern) == m';
    SameTwice(m0, b0, m, b, m', b');
    FreeKern(m', kv);
    FreeKern(m, kv);
    hide Owned, SameShown, FreeAt, WritableIn, Mixed;
    ClaimKern(m0, frame, num, i, m.kern, m'.kern, FreeAt(m0, frame), FreeAt(m, i));
  }

  lemma FreeKern(m: Vm, kv: seq<nat>)
    ensures forall g :: FreeAt(m.(kern := kv), g) == FreeAt(m, g) && WritableIn(m.(kern := kv), g) == WritableIn(m, g)
  {
  }

  lemma ClaimKern(m0: Vm, frame: nat, num: nat, i: nat, k1: seq<nat>, k2: seq<nat>, freeFirst: bool, freeNow: bool)
    requires frame <= i < frame + num <= |m0.kern| && (i == frame ==> freeFirst == freeNow)
    requires k1 == if frame < i && freeFirst then Marked(m0.kern, frame, num)[frame := 1] else Marked(m0.kern, frame, num)
    requires k2 == if freeNow then k1[i := 1] else k1
    ensures k2 == if freeFirst then Marked(m0.kern, frame, num)[frame := 1] else Marked(m0.kern, frame, num)
  {
  }

  lemma SameTwice(m: Vm, b: Book, m1: Vm, b1: Book, m2: Vm, b2: Book)
    requires SameShown(m, b, m1, b1) && SameShown(m1, b1, m2, b2)
    ensures SameShown(m, b, m2, b2)
  {
    hide Shown, Pg;
  }

  lemma SameKern(m: Vm, b: Book, m': Vm, b': Book, k: seq<nat>, k': seq<nat>)
    requires SameShown(m, b, m', b')
    ensures SameShown(m.(kern := k), b, m'.(kern := k'), b')
  {
    assert forall p: nat :: Shown(m'.(kern := k'), p) == Shown(m', p) && Pg(m'.(kern := k'), p) == Pg(m', p);
    assert forall p: nat :: Shown(m.(kern := k), p) == Shown(m, p) && Pg(m.(kern := k), p) == Pg(m, p);
    hide Shown, Pg;
  }

  // The kern field of frame g after a request for num frames at frame.
  function ClaimedCount(m: Vm, frame: nat, num: nat, g: nat): nat {
    if g == frame && !FreeAt(m, frame) then num
    else if frame <= g < frame + num then 1 else KernOf(m, g)
  }

  lemma ClaimEnds(m0: Vm, b0: Book, m: Vm, b: Book, frame: nat, num: nat, held: map<nat, Request>)
    requires ClaimedUpTo(m0, b0, m, b, frame, num, frame + num) && Idle(m0.kern, frame, num) && num > 0 && m0.low <= frame
    requires Runs(m0.kern, m0.low, held)
    ensures Owned(m, b, -1) && SameShown(m0, b0, m, b) && b.live == b0.live && m.image == m0.image
    ensures Runs(m.kern, m.low, held[frame := Request(num, FreeAt(m0, frame))]) && Apart(held, frame, num) == held
    ensures |m.kern| == |m0.kern| && forall g :: 0 <= g < |m.kern| ==> m.kern[g] == ClaimedCount(m0, frame, num, g)
    ensures |b.slots| + Writables(m0, frame, num) == |b0.slots|
  {
    assert Mixed(m0.kern, m.kern, frame, frame + num) == m.kern;
    assert m.(kern := m.kern) == m;
    hide Owned, Mixed;
    NewRun(m0.kern, m.kern, m0.low, held, frame, Request(num, FreeAt(m0, frame)));
  }

  lemma NewRun(k0: seq<nat>, k1: seq<nat>, low: nat, held: map<nat, Request>, frame: nat, r: Request)
    requires Runs(k0, low, held) && Idle(k0, frame, r.num) && RunOk(k1, low, frame, r)
    requires |k1| == |k0| && forall g :: 0 <= g < |k1| && !(frame <= g < frame + r.num) ==> k1[g] == k0[g]
    requires forall g :: frame < g < frame + r.num ==> k1[g] == 1
    ensures Runs(k1, low, held[frame := r]) && Apart(held, frame, r.num) == held
  {
    forall h | h in held ensures RunOk(k0, low, h, held[h]) && (h + held[h].num <= frame || frame + r.num <= h) {
      var x := if h < frame then frame else h;
      assert h + held[h].num <= x || k0[x] > 0;
    }
  }

  // n consecutive frames.
  function Range(frame: nat, n: nat): seq<nat> {
    seq(n, i requires 0 <= i < n => frame + i)
  }

  lemma RunFacts(kern: seq<nat>, low: nat, held: map<nat, Request>, frame: nat)
    requires Runs(kern, low, held) && frame in held
    ensures low <= frame && 0 < held[frame].num && frame + held[frame].num <= |kern|
    ensures kern[frame] == if held[frame].firstFree then 1 else held[frame].num
    ensures forall i :: frame <= i < frame + held[frame].num ==> kern[i] > 0
  {
    assert RunOk(kern, low, frame, held[frame]);
  }

  // What cm_release_kframes asserts: the frames it is to release are the kernel's.
  predicate Releasable(m: Vm, frame: nat) {
    && m.low <= frame && 0 < KernOf(m, frame)
    && (forall g :: frame <= g < frame + KernOf(m, frame) ==> KernOf(m, g) > 0)
  }

  lemma CountFits(kern: seq<nat>, low: nat, held: map<nat, Request>, frame: nat)
    requires Runs(kern, low, held) && frame < |kern|
    ensures frame + kern[frame] <= |kern|
  {
  }

  // The requests that have none of these n frames.
  function Apart(held: map<nat, Request>, frame: nat, n: nat): map<nat, Request> {
    map h | h in held && (h + held[h].num <= frame || frame + n <= h) :: held[h]
  }

  lemma FewerRuns(k0: seq<nat>, k1: seq<nat>, low: nat, held: map<nat, Request>, frame: nat, n: nat)
    requires Runs(k0, low, held)
    requires |k1| == |k0| && forall g :: 0 <= g < |k1| ==> k1[g] == if frame <= g < frame + n then 0 else k0[g]
    ensures Runs(k1, low, Apart(held, frame, n))
  {
    var rest := Apart(held, frame, n);
    forall h | h in rest ensures RunOk(k1, low, h, rest[h]) {
      assert RunOk(k0, low, h, held[h]);
    }
  }

  // Releasing a request leaves the others.
  lemma OneFewer(kern: seq<nat>, low: nat, held: map<nat, Request>, frame: nat)
    requires Runs(kern, low, held) && frame in held
    ensures frame < |kern| && 0 < kern[frame] <= held[frame].num && Apart(held, frame, kern[frame]) == held - {frame}
  {
    assert RunOk(kern, low, frame, held[frame]);
  }

  lemma SameSelf(m: Vm, b: Book)
    ensures SameShown(m, b, m, b)
  {
  }

  lemma KernelNotFree(m: Vm, b: Book, f: nat)
    requires Owned(m, b, -1) && m.low <= f < m.size && KernOf(m, f) > 0
    ensures Shape(m) && f !in b.frames
  {
    assert FrameOk(m, b, -1, f);
  }

  lemma GivenBack(m: Vm, b: Book, f: nat)
    requires Owned(m, b, f) && m.low <= f < m.size && f !in b.frames
    ensures Shape(m) && Owned(GiveVm(m, f), b.(frames := b.frames + [f]), -1)
    ensures SameShown(m, b, GiveVm(m, f), b.(frames := b.frames + [f]))
  {
    hide FrameOk, PageOk, SlotOk, SlotsApart;
    GiveStep(m, b, f, b.frames + [f]);
  }

  lemma MembersNext(s: seq<nat>, i: nat)
    requires i < |s|
    ensures Members(s[..i + 1]) == Members(s[..i]) + {s[i]}
    ensures Distinct(s) ==> s[i] !in Members(s[..i])
  {
    assert s[..i + 1] == s[..i] + [s[i]];
  }

  lemma NewPg(m: Vm, p: nat, vaddr: nat, writeable: bool, d: Data)
    ensures Pg(NewVm(m, p, vaddr, writeable, d), p) == NewPage(vaddr, writeable)
    ensures forall q: nat :: q != p ==> Pg(NewVm(m, p, vaddr, writeable, d), q) == Pg(m, q)
  {
  }

  lemma PutBack(m: Vm, b: Book, f: nat)
    requires Owned(m, b, f) && m.low <= f < m.size && KernOf(m, f) == 0
    ensures Shape(m) && f !in b.frames && m.kern[f := 0] == m.kern
    ensures Owned(GiveVm(m, f), b.(frames := [f] + b.frames), -1)
  {
    assert FrameOk(m, b, f, f);
    hide FrameOk, PageOk, SlotOk, SlotsApart;
    GiveStep(m, b, f, [f] + b.frames);
  }

  lemma InMemory(m: Vm, b: Book, p: nat)
    requires Owned(m, b, -1) && p in b.live && Pg(m, p).pfn != -1
    ensures Pg(m, p).sfn == -1 && m.low <= Pg(m, p).pfn < m.size && KernOf(m, Pg(m, p).pfn) == 0
    ensures Owned(m, b.(live := b.live - {p}), Pg(m, p).pfn)
  {
    assert PageOk(m, b, -1, p);
    hide Owned;
    DropFramePage(m, b, p);
  }

  // The pages of s are as they were and show what they showed.
  ghost predicate SamePages(m: Vm, m': Vm, s: set<nat>) {
    forall p :: p in s ==> Pg(m', p) == Pg(m, p) && Shown(m', p) == Shown(m, p)
  }

  lemma SamePagesSelf(m: Vm, s: set<nat>)
    ensures SamePages(m, m, s)
  {
  }

  lemma SamePagesTwice(m: Vm, m1: Vm, m2: Vm, s1: set<nat>, s: set<nat>)
    requires SamePages(m, m1, s1) && SamePages(m1, m2, s) && s <= s1
    ensures SamePages(m, m2, s)
  {
    hide Pg, Shown;
  }

  lemma Forgotten(m: Vm, gone: set<nat>, live: set<nat>)
    requires gone !! live
    ensures SamePages(m, m.(pages := m.pages - gone, image := m.image - gone), live)
  {
    var m' := m.(pages := m.pages - gone, image := m.image - gone);
    assert forall p :: p in live ==> Pg(m', p) == Pg(m, p) && ImageOf(m', p) == ImageOf(m, p);
  }

  // A segment, with its page table if it has one.
  datatype Segment = Segment(active: bool, table: bool, pages: seq<nat>)

  // The pages as_free_segments goes over.
  function PagesOf(segs: seq<Segment>): set<nat> {
    set i, p | 0 <= i < |segs| && segs[i].active && segs[i].table && p in segs[i].pages :: p
  }

  predicate SegmentsApart(segs: seq<Segment>) {
    && (forall i :: 0 <= i < |segs| ==> Distinct(segs[i].pages))
    && (forall i, k, p :: 0 <= i < k < |segs| && p in segs[i].pages ==> p !in segs[k].pages)
  }

  lemma NoSegments()
    ensures PagesOf([]) == {}
  {
  }

  lemma PagesNext(segs: seq<Segment>, i: nat)
    requires i < |segs|
    ensures PagesOf(segs[..i + 1]) == PagesOf(segs[..i]) + if segs[i].active && segs[i].table then Members(segs[i].pages) else {}
    ensures segs[..0] == []
  {
    var s := segs[..i + 1];
    forall p | p in PagesOf(segs[..i]) ensures p in PagesOf(s) {
      var k :| 0 <= k < i && segs[..i][k].active && segs[..i][k].table && p in segs[..i][k].pages;
      assert s[k] == segs[..i][k];
    }
    forall p | p in PagesOf(s) ensures p in PagesOf(segs[..i]) || (segs[i].active && segs[i].table && p in segs[i].pages) {
      var k :| 0 <= k < i + 1 && s[k].active && s[k].table && p in s[k].pages;
      if k < i { assert segs[..i][k] == s[k]; }
    }
    assert segs[i].active && segs[i].table ==> s[i] == segs[i];
  }

  // The pages of a segment are still in use when its turn comes.
  lemma SegmentLive(segs: seq<Segment>, i: nat, live: set<nat>)
    requires i < |segs| && SegmentsApart(segs) && PagesOf(segs) <= live && segs[i].active && segs[i].table
    ensures Distinct(segs[i].pages) && Members(segs[i].pages) <= live - PagesOf(segs[..i])
  {
    forall p | p in segs[i].pages ensures p in live && p !in PagesOf(segs[..i]) {
      assert p in PagesOf(segs);
    }
  }

  // If pages went, the kernel's frames and the other pages being as they were, then the
  // frame or slot of each page that went is free.
  lemma GaveBack(m: Vm, b: Book, m': Vm, b': Book, p: nat)
    requires Owned(m, b, -1) && Owned(m', b', -1) && p in b.live && p !in b'.live && b'.live <= b.live
    requires SamePages(m, m', b'.live) && m'.kern == m.kern && m'.low == m.low && m'.size == m.size
    ensures Pg(m, p).pfn != -1 ==> Pg(m, p).pfn >= 0 && Pg(m, p).pfn in b'.frames
    ensures Pg(m, p).sfn != -1 ==> Pg(m, p).sfn >= 0 && Pg(m, p).sfn in b'.slots
  {
    assert PageOk(m, b, -1, p);
    var f, s := Pg(m, p).pfn, Pg(m, p).sfn;
    if f != -1 {
      FrameRole(m', b', f);
      forall q | q in b'.live ensures Pg(m', q).pfn != f {
        assert PageOk(m, b, -1, q) && Pg(m', q) == Pg(m, q);
      }
    }
    if s != -1 {
      SlotRole(m', b', -1, s);
      forall q | q in b'.live ensures Pg(m', q).sfn != s {
        assert Pg(m', q) == Pg(m, q);
      }
    }
    hide Owned;
  }

  // ---- The start ----

  // The managed frames from the highest down.
  function Downward(low: nat, size: nat): (s: seq<nat>)
    requires low <= size
    ensures |s| == size - low && forall i :: 0 <= i < |s| ==> s[i] == size - 1 - i
  {
    seq<nat>(size - low, i requires 0 <= i < size - low => size - 1 - i)
  }

  lemma FreshLists(low: nat, size: nat, next: seq<int>, prev: seq<int>, slotNext: seq<int>)
    requires low < size == |next| == |prev| && |slotNext| == 1024
    requires forall g :: low < g < size ==> next[g] == g - 1
    requires forall g :: low <= g < size - 1 ==> prev[g] == g + 1
    requires next[low] == -1 && prev[size - 1] == -1
    requires slotNext[1023] == -1 && forall g :: 0 <= g < 1023 ==> slotNext[g] == g + 1
    ensures DoubleList(next, prev, size - 1, low, Downward(low, size)) && Chain(slotNext, 0, Range(0, 1024))
  {
    var s, r := Downward(low, size), Range(0, 1024);
    forall i | 0 <= i < |s| ensures Node(next, prev, s, i) {
    }
    forall i | 0 <= i < |r| ensures Link(slotNext, r, i) {
    }
  }

  lemma FreshOwned(m: Vm)
    requires Shape(m) && m.pages == map[] && m.image == map[]
    requires forall g :: 0 <= g < m.size ==> m.kern[g] == 0 && m.free[g] == (m.low <= g)
    ensures Owned(m, Book(Downward(m.low, m.size), Range(0, 1024), {}), -1)
  {
    var b := Book(Downward(m.low, m.size), Range(0, 1024), {});
    forall f | m.low <= f < m.size ensures FrameOk(m, b, -1, f) {
      assert b.frames[m.size - 1 - f] == f;
    }
    forall s: nat | s < 1024 ensures SlotOk(m, b, s) {
      assert b.slots[s] == s;
    }
  }
}
