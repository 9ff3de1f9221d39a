// Frames, pages and swap slots as values: who owns what, and what each page shows.
module PagingState {
  import opened Chains

  // The bytes of one page. The swap area has room for 1024.
  type Data = seq<nat>

  // struct page_detail; -1 stands for no frame and no slot.
  datatype Page = Page(vaddr: nat, pfn: int, sfn: int, valid: bool, dirty: bool, use: bool)

  // The fields of core_details, one sequence each, with the page tables, physical
  // memory, the swap file, and what the executable holds for each page.
  datatype Vm = Vm(low: nat, size: nat, kern: seq<nat>, pd: seq<int>, free: seq<bool>,
                   pages: map<nat, Page>, phys: seq<Data>, swap: seq<Data>, image: map<nat, Data>)

  // The free frames and free slots in list order, and the pages in use.
  datatype Book = Book(frames: seq<nat>, slots: seq<nat>, live: set<nat>)

  function Pg(m: Vm, p: nat): Page {
    if p in m.pages then m.pages[p] else Page(0, -1, -1, false, false, false)
  }

  function ImageOf(m: Vm, p: nat): Data {
    if p in m.image then m.image[p] else []
  }

  function PhysOf(m: Vm, f: int): Data {
    if 0 <= f < |m.phys| then m.phys[f] else []
  }

  function SwapOf(m: Vm, s: int): Data {
    if 0 <= s < |m.swap| then m.swap[s] else []
  }

  function KernOf(m: Vm, f: int): nat {
    if 0 <= f < |m.kern| then m.kern[f] else 0
  }

  function PdOf(m: Vm, f: int): int {
    if 0 <= f < |m.pd| then m.pd[f] else -1
  }

  predicate FreeAt(m: Vm, f: int) {
    0 <= f < |m.free| && m.free[f]
  }

  // A frame a process page may sit in.
  predicate IsUser(m: Vm, f: int) {
    KernOf(m, f) == 0 && !FreeAt(m, f)
  }

  // What is seen at page p: its frame, its slot, or what the file holds.
  function Shown(m: Vm, p: nat): Data {
    var pg := Pg(m, p);
    if pg.pfn != -1 then PhysOf(m, pg.pfn)
    else if pg.sfn != -1 then SwapOf(m, pg.sfn)
    else ImageOf(m, p)
  }

  ghost predicate Shape(m: Vm) {
    && m.low < m.size && |m.kern| == |m.pd| == |m.free| == |m.phys| == m.size && |m.swap| == 1024
  }

  // Frame f is free, a kernel frame, or holds a page in use whose pfn points back.
  // Frame t, if any, is between roles.
  ghost predicate FrameOk(m: Vm, b: Book, t: int, f: int) {
    && (FreeAt(m, f) <==> f >= 0 && f in b.frames)
    && (f == t ==> !FreeAt(m, f))
    && (FreeAt(m, f) ==> KernOf(m, f) == 0)
    && (f != t && IsUser(m, f) ==> PdOf(m, f) >= 0 && PdOf(m, f) in b.live && Pg(m, PdOf(m, f)).pfn == f)
  }

  // Page p, in use: its frame points back, its slot is not free, and a read-only page
  // in memory is what the file holds.
  ghost predicate PageOk(m: Vm, b: Book, t: int, p: nat) {
    var pg := Pg(m, p);
    && p in m.pages && p in m.image && (pg.valid <==> pg.pfn != -1)
    && (pg.pfn != -1 ==> m.low <= pg.pfn < m.size && pg.pfn != t && IsUser(m, pg.pfn) && PdOf(m, pg.pfn) == p && pg.sfn == -1)
    && (pg.sfn != -1 ==> 0 <= pg.sfn < 1024 && pg.sfn !in b.slots && pg.dirty)
    && (!pg.dirty ==> Shown(m, p) == ImageOf(m, p))
  }

  // Slot s is on the free chain or is some page's.
  ghost predicate SlotOk(m: Vm, b: Book, s: nat) {
    s in b.slots || exists p :: p in b.live && Pg(m, p).sfn == s
  }

  ghost predicate SlotsApart(m: Vm, b: Book) {
    forall p, q :: p in b.live && q in b.live && p != q && Pg(m, p).sfn != -1 ==> Pg(m, p).sfn != Pg(m, q).sfn
  }

  ghost predicate Owned(m: Vm, b: Book, t: int) {
    && Shape(m)
    && (forall f :: f in b.frames ==> m.low <= f < m.size) && Distinct(b.frames)
    && (forall s :: s in b.slots ==> s < 1024) && Distinct(b.slots)
    && (forall f :: m.low <= f < m.size ==> FrameOk(m, b, t, f))
    && (forall p :: p in b.live ==> PageOk(m, b, t, p))
    && (forall s: nat :: s < 1024 ==> SlotOk(m, b, s))
    && SlotsApart(m, b)
  }

  // The same pages, each showing what it showed.
  ghost predicate SameShown(m: Vm, b: Book, m': Vm, b': Book) {
    && b'.live == b.live
    && (forall p :: p in b.live ==> Shown(m', p) == Shown(m, p) && Pg(m', p).dirty == Pg(m, p).dirty)
  }

  // ---- Exactly one role ----

  // Every managed frame is exactly one of free, kernel, or the frame of exactly one page.
  lemma FrameRole(m: Vm, b: Book, f: nat)
    requires Owned(m, b, -1) && m.low <= f < m.size
    ensures f in b.frames ==> KernOf(m, f) == 0 && forall p :: p in b.live ==> Pg(m, p).pfn != f
    ensures KernOf(m, f) > 0 ==> f !in b.frames && forall p :: p in b.live ==> Pg(m, p).pfn != f
    ensures f !in b.frames && KernOf(m, f) == 0 ==> exists p :: p in b.live && Pg(m, p).pfn == f && forall q :: q in b.live && Pg(m, q).pfn == f ==> q == p
    ensures forall i, k :: 0 <= i < k < |b.frames| && b.frames[i] == f ==> b.frames[k] != f
  {
    assert FrameOk(m, b, -1, f);
    hide SlotOk, SlotsApart;
    if f !in b.frames && KernOf(m, f) == 0 {
      var p: nat := PdOf(m, f);
      assert p in b.live && Pg(m, p).pfn == f;
      forall q | q in b.live && Pg(m, q).pfn == f ensures q == p {
        assert PageOk(m, b, -1, q);
      }
    }
    forall p | p in b.live && Pg(m, p).pfn == f ensures f !in b.frames && KernOf(m, f) == 0 {
      assert PageOk(m, b, -1, p);
    }
  }

  // Every slot is on the free chain or belongs to exactly one page.
  lemma SlotRole(m: Vm, b: Book, t: int, s: nat)
    requires Owned(m, b, t) && s < 1024
    ensures s in b.slots ==> forall p :: p in b.live ==> Pg(m, p).sfn != s
    ensures s !in b.slots ==> exists p :: p in b.live && Pg(m, p).sfn == s && forall q :: q in b.live && Pg(m, q).sfn == s ==> q == p
    ensures forall i, k :: 0 <= i < k < |b.slots| && b.slots[i] == s ==> b.slots[k] != s
  {
    hide FrameOk;
    assert SlotOk(m, b, s);
    forall p | p in b.live && Pg(m, p).sfn == s ensures s !in b.slots {
      assert PageOk(m, b, t, p);
    }
    if s !in b.slots {
      var p :| p in b.live && Pg(m, p).sfn == s;
      assert forall q :: q in b.live && Pg(m, q).sfn == s ==> q == p;
    }
  }
}
