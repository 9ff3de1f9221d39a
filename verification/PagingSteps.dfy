// What each step of the paging code does to the ownership of frames, pages and
// slots, and to what the pages show.
module PagingSteps {
  import opened Chains
  import opened PagingState

  // A free frame leaves the list.
  function TakeVm(m: Vm, f: nat): Vm
    requires f < |m.kern| && f < |m.free|
  {
    m.(kern := m.kern[f := 1], free := m.free[f := false])
  }

  lemma TakeStep(m: Vm, b: Book, f: nat, frames': seq<nat>)
    requires Owned(m, b, -1) && f in b.frames && Distinct(frames')
    requires forall x :: x in frames' <==> x in b.frames && x != f
    ensures Owned(TakeVm(m, f), b.(frames := frames'), f)
    ensures SameShown(m, b, TakeVm(m, f), b.(frames := frames'))
  {
    var m', b' := TakeVm(m, f), b.(frames := frames');
    assert FrameOk(m, b, -1, f);
    forall g | m.low <= g < m.size ensures FrameOk(m', b', f, g) { assert FrameOk(m, b, -1, g); }
    forall p | p in b.live ensures PageOk(m', b', f, p) { assert PageOk(m, b, -1, p); }
    forall s: nat | s < 1024 ensures SlotOk(m', b', s) {
      assert SlotOk(m, b, s);
      if s !in b.slots { var p :| p in b.live && Pg(m, p).sfn == s; assert Pg(m', p).sfn == s; }
    }
    assert forall p: nat :: Pg(m', p) == Pg(m, p);
    hide FrameOk, PageOk, SlotOk, Distinct, TakeVm;
  }

  // ---- cm_free_core ----

  function EvictedPage(pg: Page, s: int): Page {
    pg.(valid := false, use := false, sfn := if pg.dirty then s else -1, pfn := -1)
  }

  // The page in frame f goes to slot s, or nowhere if it is read-only.
  function EvictVm(m: Vm, f: nat, s: nat): Vm
    requires f < |m.pd| && f < |m.phys| && s < |m.swap| && m.pd[f] >= 0
  {
    var p: nat := m.pd[f];
    m.(pages := m.pages[p := EvictedPage(Pg(m, p), s)], pd := m.pd[f := -1],
       swap := if Pg(m, p).dirty then m.swap[s := m.phys[f]] else m.swap)
  }

  function EvictBook(m: Vm, b: Book, p: nat): Book {
    b.(slots := if Pg(m, p).dirty && |b.slots| > 0 then b.slots[1..] else b.slots)
  }

  lemma TailMembers(s: seq<nat>)
    requires Distinct(s) && |s| > 0
    ensures Distinct(s[1..]) && forall x :: x in s[1..] <==> x in s && x != s[0]
  {
  }

  lemma EvictPages(m: Vm, b: Book, f: nat, p: nat, s: nat)
    requires Owned(m, b, -1) && m.low <= f < m.size && IsUser(m, f) && PdOf(m, f) == p
    requires Pg(m, p).dirty ==> |b.slots| > 0 && s == b.slots[0]
    requires s < 1024
    ensures p in b.live && SameShown(m, b, EvictVm(m, f, s), EvictBook(m, b, p))
    ensures forall q :: q in b.live ==> PageOk(EvictVm(m, f, s), EvictBook(m, b, p), f, q)
    ensures SlotsApart(EvictVm(m, f, s), EvictBook(m, b, p))
  {
    assert FrameOk(m, b, -1, f) && PageOk(m, b, -1, p);
    var m', b' := EvictVm(m, f, s), EvictBook(m, b, p);
    if |b.slots| > 0 { TailMembers(b.slots); }
    forall q | q in b.live ensures PageOk(m', b', f, q) && Shown(m', q) == Shown(m, q) && Pg(m', q).dirty == Pg(m, q).dirty {
      assert PageOk(m, b, -1, q);
    }
    forall q, r | q in b.live && r in b.live && q != r && Pg(m', q).sfn != -1 ensures Pg(m', q).sfn != Pg(m', r).sfn {
      assert PageOk(m, b, -1, q) && PageOk(m, b, -1, r);
    }
  }

  lemma EvictStep(m: Vm, b: Book, f: nat, p: nat, s: nat)
    requires Owned(m, b, -1) && m.low <= f < m.size && IsUser(m, f) && PdOf(m, f) == p
    requires Pg(m, p).dirty ==> |b.slots| > 0 && s == b.slots[0]
    requires s < 1024
    ensures Owned(EvictVm(m, f, s), EvictBook(m, b, p), f)
    ensures SameShown(m, b, EvictVm(m, f, s), EvictBook(m, b, p))
  {
    var m', b' := EvictVm(m, f, s), EvictBook(m, b, p);
    EvictPages(m, b, f, p, s);
    assert FrameOk(m, b, -1, f);
    forall g | m.low <= g < m.size ensures FrameOk(m', b', f, g) {
      assert FrameOk(m, b, -1, g);
    }
    if |b.slots| > 0 { TailMembers(b.slots); }
    assert PageOk(m, b, -1, p);
    forall x: nat | x < 1024 ensures SlotOk(m', b', x) {
      EvictSlot(m, b, f, p, s, x);
    }
    hide FrameOk, PageOk, SlotOk, Distinct, SlotsApart;
  }

  lemma EvictSlot(m: Vm, b: Book, f: nat, p: nat, s: nat, x: nat)
    requires Owned(m, b, -1) && m.low <= f < m.size && PdOf(m, f) == p && p in b.live && Pg(m, p).pfn == f
    requires Pg(m, p).dirty ==> |b.slots| > 0 && s == b.slots[0]
    requires s < 1024 && x < 1024
    ensures SlotOk(EvictVm(m, f, s), EvictBook(m, b, p), x)
  {
    var m', b' := EvictVm(m, f, s), EvictBook(m, b, p);
    assert SlotOk(m, b, x) && PageOk(m, b, -1, p);
    if x in b.slots {
      if x !in b'.slots { assert Pg(m', p).sfn == x; }
    } else {
      var q :| q in b.live && Pg(m, q).sfn == x;
      assert Pg(m', q).sfn == x;
    }
  }

  // ---- cm_finish_paging ----

  function FilledPage(pg: Page, t: nat): Page {
    pg.(pfn := t, valid := true, use := true, sfn := -1)
  }

  // Page p comes to frame t with what it shows; its slot, if any, is free again.
  function FillVm(m: Vm, t: nat, p: nat): Vm
    requires t < |m.kern| && t < |m.pd| && t < |m.free| && t < |m.phys|
  {
    m.(pages := m.pages[p := FilledPage(Pg(m, p), t)], pd := m.pd[t := p], kern := m.kern[t := 0],
       free := m.free[t := false], phys := m.phys[t := Shown(m, p)])
  }

  function FillBook(m: Vm, b: Book, p: nat): Book {
    b.(slots := if Pg(m, p).sfn >= 0 then [Pg(m, p).sfn] + b.slots else b.slots)
  }

  lemma FillPages(m: Vm, b: Book, t: nat, p: nat)
    requires Owned(m, b, t) && m.low <= t < m.size && p in b.live && Pg(m, p).pfn == -1
    ensures SameShown(m, b, FillVm(m, t, p), FillBook(m, b, p))
    ensures forall q :: q in b.live ==> PageOk(FillVm(m, t, p), FillBook(m, b, p), -1, q)
    ensures SlotsApart(FillVm(m, t, p), FillBook(m, b, p))
  {
    var m', b' := FillVm(m, t, p), FillBook(m, b, p);
    assert PageOk(m, b, t, p);
    forall q | q in b.live ensures PageOk(m', b', -1, q) && Shown(m', q) == Shown(m, q) && Pg(m', q).dirty == Pg(m, q).dirty {
      assert PageOk(m, b, t, q);
    }
  }

  lemma FillSlot(m: Vm, b: Book, t: nat, p: nat, x: nat)
    requires Owned(m, b, t) && m.low <= t < m.size && p in b.live && Pg(m, p).pfn == -1 && x < 1024
    ensures SlotOk(FillVm(m, t, p), FillBook(m, b, p), x)
  {
    var m', b' := FillVm(m, t, p), FillBook(m, b, p);
    assert SlotOk(m, b, x) && PageOk(m, b, t, p);
    if x !in b.slots {
      var q :| q in b.live && Pg(m, q).sfn == x;
      if q != p { assert Pg(m', q).sfn == x; }
    }
  }

  lemma FillStep(m: Vm, b: Book, t: nat, p: nat)
    requires Owned(m, b, t) && m.low <= t < m.size && p in b.live && Pg(m, p).pfn == -1
    ensures Owned(FillVm(m, t, p), FillBook(m, b, p), -1)
    ensures SameShown(m, b, FillVm(m, t, p), FillBook(m, b, p))
  {
    var m', b' := FillVm(m, t, p), FillBook(m, b, p);
    FillPages(m, b, t, p);
    assert FrameOk(m, b, t, t) && PageOk(m, b, t, p);
    forall g | m.low <= g < m.size ensures FrameOk(m', b', -1, g) {
      assert FrameOk(m, b, t, g);
    }
    forall x: nat | x < 1024 ensures SlotOk(m', b', x) {
      FillSlot(m, b, t, p, x);
    }
    hide FrameOk, PageOk, SlotOk, SlotsApart;
  }

  // ---- Kernel frames ----

  lemma ToKernel(m: Vm, b: Book, t: nat, n: nat)
    requires Owned(m, b, t) && m.low <= t < m.size && n > 0
    ensures Owned(m.(kern := m.kern[t := n]), b, -1)
    ensures SameShown(m, b, m.(kern := m.kern[t := n]), b)
  {
    var m' := m.(kern := m.kern[t := n]);
    assert FrameOk(m, b, t, t);
    forall g | m.low <= g < m.size ensures FrameOk(m', b, -1, g) {
      assert FrameOk(m, b, t, g);
    }
    forall q | q in b.live ensures PageOk(m', b, -1, q) { assert PageOk(m, b, t, q); }
    SlotsSame(m, b, m', b);
    hide FrameOk, PageOk, SlotOk, SlotsApart;
  }

  lemma FromKernel(m: Vm, b: Book, f: nat)
    requires Owned(m, b, -1) && m.low <= f < m.size && KernOf(m, f) > 0
    ensures Owned(m, b, f)
  {
    forall g | m.low <= g < m.size ensures FrameOk(m, b, f, g) {
      assert FrameOk(m, b, -1, g);
    }
    forall q | q in b.live ensures PageOk(m, b, f, q) { assert PageOk(m, b, -1, q); }
    hide FrameOk, PageOk, SlotOk, SlotsApart;
  }

  lemma SlotsSame(m: Vm, b: Book, m': Vm, b': Book)
    requires (forall p: nat :: Pg(m', p).sfn == Pg(m, p).sfn) && b'.slots == b.slots && b'.live == b.live
    requires SlotsApart(m, b) && forall s: nat :: s < 1024 ==> SlotOk(m, b, s)
    ensures SlotsApart(m', b') && forall s: nat :: s < 1024 ==> SlotOk(m', b', s)
  {
    forall s: nat | s < 1024 ensures SlotOk(m', b', s) {
      assert SlotOk(m, b, s);
      if s !in b.slots { var p :| p in b.live && Pg(m, p).sfn == s; assert Pg(m', p).sfn == s; }
    }
  }

  // ---- The free list ----

  function GiveVm(m: Vm, t: nat): Vm
    requires t < |m.kern| && t < |m.free|
  {
    m.(kern := m.kern[t := 0], free := m.free[t := true])
  }

  lemma GiveStep(m: Vm, b: Book, t: nat, frames': seq<nat>)
    requires Owned(m, b, t) && m.low <= t < m.size && Distinct(frames')
    requires forall x :: x in frames' <==> x in b.frames || x == t
    ensures Owned(GiveVm(m, t), b.(frames := frames'), -1)
    ensures SameShown(m, b, GiveVm(m, t), b.(frames := frames'))
  {
    var m', b' := GiveVm(m, t), b.(frames := frames');
    forall g | m.low <= g < m.size ensures FrameOk(m', b', -1, g) { assert FrameOk(m, b, t, g); }
    forall p | p in b.live ensures PageOk(m', b', -1, p) { assert PageOk(m, b, t, p); }
    SlotsSame(m, b, m', b');
    hide FrameOk, PageOk, SlotOk, SlotsApart, Distinct, GiveVm;
  }

  // ---- A page goes: as_free_segments ----

  // The page's frame is between roles, if it had one.
  lemma DropFramePage(m: Vm, b: Book, p: nat)
    requires Owned(m, b, -1) && p in b.live && Pg(m, p).sfn == -1
    ensures Owned(m, b.(live := b.live - {p}), Pg(m, p).pfn)
    ensures Pg(m, p).pfn != -1 ==> m.low <= Pg(m, p).pfn < m.size
  {
    var b', f := b.(live := b.live - {p}), Pg(m, p).pfn;
    assert PageOk(m, b, -1, p);
    forall g | m.low <= g < m.size ensures FrameOk(m, b', f, g) { assert FrameOk(m, b, -1, g); }
    forall q | q in b'.live ensures PageOk(m, b', f, q) { assert PageOk(m, b, -1, q); }
    forall s: nat | s < 1024 ensures SlotOk(m, b', s) {
      assert SlotOk(m, b, s);
      if s !in b.slots { var q :| q in b.live && Pg(m, q).sfn == s; assert q in b'.live; }
    }
    hide FrameOk, PageOk, SlotOk;
  }

  // The page's slot goes back on the chain.
  lemma DropSlotPage(m: Vm, b: Book, p: nat)
    requires Owned(m, b, -1) && p in b.live && Pg(m, p).sfn != -1
    ensures Pg(m, p).pfn == -1 && 0 <= Pg(m, p).sfn < 1024 && Pg(m, p).sfn !in b.slots
    ensures Owned(m, Book(b.frames, [Pg(m, p).sfn] + b.slots, b.live - {p}), -1)
  {
    assert PageOk(m, b, -1, p);
    var b' := Book(b.frames, [Pg(m, p).sfn] + b.slots, b.live - {p});
    forall g | m.low <= g < m.size ensures FrameOk(m, b', -1, g) { assert FrameOk(m, b, -1, g); }
    forall q | q in b'.live ensures PageOk(m, b', -1, q) { assert PageOk(m, b, -1, q); }
    forall s: nat | s < 1024 ensures SlotOk(m, b', s) {
      assert SlotOk(m, b, s);
      if s !in b.slots { var q :| q in b.live && Pg(m, q).sfn == s; assert q in b'.live || s == Pg(m, p).sfn; }
    }
    hide FrameOk, PageOk, SlotOk;
  }

  // ---- Small changes ----

  // Only use bits differ.
  ghost predicate OnlyUse(m: Vm, m': Vm) {
    && m' == m.(pages := m'.pages) && m'.pages.Keys == m.pages.Keys
    && (forall p :: p in m.pages ==> m'.pages[p] == m.pages[p].(use := m'.pages[p].use))
  }

  lemma UseStep(m: Vm, b: Book, m': Vm)
    requires Owned(m, b, -1) && OnlyUse(m, m')
    ensures Owned(m', b, -1) && SameShown(m, b, m', b)
  {
    assert forall p: nat :: Pg(m', p) == Pg(m, p).(use := Pg(m', p).use);
    assert m' == m.(pages := m'.pages);
    hide OnlyUse;
    forall g | m.low <= g < m.size ensures FrameOk(m', b, -1, g) { assert FrameOk(m, b, -1, g); }
    forall p | p in b.live ensures PageOk(m', b, -1, p) && Shown(m', p) == Shown(m, p) { assert PageOk(m, b, -1, p); }
    SlotsSame(m, b, m', b);
    hide FrameOk, PageOk, SlotOk, SlotsApart;
  }

  // A store to a writable page in memory.
  lemma WriteStep(m: Vm, b: Book, p: nat, d: Data)
    requires Owned(m, b, -1) && p in b.live && Pg(m, p).pfn != -1 && Pg(m, p).dirty
    ensures 0 <= Pg(m, p).pfn < |m.phys|
    ensures var m' := m.(phys := m.phys[Pg(m, p).pfn := d]);
            && Owned(m', b, -1) && Shown(m', p) == d
            && (forall q :: q in b.live && q != p ==> Shown(m', q) == Shown(m, q))
  {
    assert PageOk(m, b, -1, p);
    var m' := m.(phys := m.phys[Pg(m, p).pfn := d]);
    forall g | m.low <= g < m.size ensures FrameOk(m', b, -1, g) { assert FrameOk(m, b, -1, g); }
    forall q | q in b.live ensures PageOk(m', b, -1, q) && (q != p ==> Shown(m', q) == Shown(m, q)) {
      assert PageOk(m, b, -1, q);
    }
    SlotsSame(m, b, m', b);
    hide FrameOk, PageOk, SlotOk, SlotsApart;
  }

  // A store to a frame that holds no page.
  lemma ScribbleStep(m: Vm, b: Book, t: int, f: nat, d: Data)
    requires Owned(m, b, t) && m.low <= f < m.size && (KernOf(m, f) > 0 || f == t)
    ensures Owned(m.(phys := m.phys[f := d]), b, t) && SameShown(m, b, m.(phys := m.phys[f := d]), b)
  {
    var m' := m.(phys := m.phys[f := d]);
    forall g | m.low <= g < m.size ensures FrameOk(m', b, t, g) { assert FrameOk(m, b, t, g); }
    forall q | q in b.live ensures PageOk(m', b, t, q) && Shown(m', q) == Shown(m, q) {
      assert PageOk(m, b, t, q);
    }
    SlotsSame(m, b, m', b);
    hide FrameOk, PageOk, SlotOk, SlotsApart;
  }

  // A page that was never loaded.
  function NewPage(vaddr: nat, writeable: bool): Page {
    Page(vaddr, -1, -1, false, writeable, false)
  }

  function NewVm(m: Vm, p: nat, vaddr: nat, writeable: bool, d: Data): Vm {
    m.(pages := m.pages[p := NewPage(vaddr, writeable)], image := m.image[p := d])
  }

  lemma NewStep(m: Vm, b: Book, p: nat, vaddr: nat, writeable: bool, d: Data)
    requires Owned(m, b, -1) && p !in b.live
    ensures Owned(NewVm(m, p, vaddr, writeable, d), b.(live := b.live + {p}), -1)
    ensures Shown(NewVm(m, p, vaddr, writeable, d), p) == d
    ensures forall q :: q in b.live ==> Shown(NewVm(m, p, vaddr, writeable, d), q) == Shown(m, q)
  {
    var m', b' := NewVm(m, p, vaddr, writeable, d), b.(live := b.live + {p});
    forall g | m.low <= g < m.size ensures FrameOk(m', b', -1, g) { assert FrameOk(m, b, -1, g); }
    forall q | q in b'.live ensures PageOk(m', b', -1, q) && (q != p ==> Shown(m', q) == Shown(m, q)) {
      if q != p { assert PageOk(m, b, -1, q); }
    }
    forall s: nat | s < 1024 ensures SlotOk(m', b', s) {
      assert SlotOk(m, b, s);
      if s !in b.slots { var q :| q in b.live && Pg(m, q).sfn == s; assert Pg(m', q).sfn == s; }
    }
    hide FrameOk, PageOk, SlotOk;
  }

  // Forgetting pages that are not in use.
  lemma ForgetStep(m: Vm, b: Book, gone: set<nat>)
    requires Owned(m, b, -1) && gone !! b.live
    ensures Owned(m.(pages := m.pages - gone, image := m.image - gone), b, -1)
    ensures SameShown(m, b, m.(pages := m.pages - gone, image := m.image - gone), b)
  {
    var m' := m.(pages := m.pages - gone, image := m.image - gone);
    assert forall p :: p in b.live ==> Pg(m', p) == Pg(m, p) && ImageOf(m', p) == ImageOf(m, p);
    forall g | m.low <= g < m.size ensures FrameOk(m', b, -1, g) { assert FrameOk(m, b, -1, g); }
    forall q | q in b.live ensures PageOk(m', b, -1, q) && Shown(m', q) == Shown(m, q) { assert PageOk(m, b, -1, q); }
    forall s: nat | s < 1024 ensures SlotOk(m', b, s) {
      assert SlotOk(m, b, s);
      if s !in b.slots { var q :| q in b.live && Pg(m, q).sfn == s; assert Pg(m', q).sfn == s; }
    }
    hide FrameOk, PageOk, SlotOk;
  }
}
