// The second chance over consecutive evictions: each search goes on where the last one
// stopped, with the use bits that one left.
module PagingChance {
  import opened PagingState
  import opened PagingSteps
  import opened PagingClock
  import opened PagingFacts
  import opened CoreMaps

  // A page-in by the clock clears the use bits of the pages in the frames it passed, and of
  // the page it displaces; every other page keeps its bit.
  lemma UseBits(m: Vm, b: Book, c: nat, k: nat, w: nat, p: nat, m': Vm, c': nat, q: nat)
    requires Owned(m, b, -1) && c < m.size - m.low && Stops(m, c, k, w) && ByClock(m, b, c, k, w, p, m', c')
    requires q in b.live && q != p
    ensures Pg(m', q).use <==>
              && Pg(m, q).use && Pg(m, q).pfn != ClockAt(m, c, k)
              && !(exists j :: 0 <= j < w && UserAt(m, c, j) && PageAt(m, c, j) == q)
  {
    SweptOnlyUse(m, b, c, w);
    SweptUse(m, b, c, w, q);
    SamePlace(m, b, Swept(m, c, w), q);
    hide Owned, Swept, Stops, UserAt, PageAt, ClockAt;
  }

  lemma SamePlace(m: Vm, b: Book, v: Vm, q: nat)
    requires Owned(m, b, -1) && OnlyUse(m, v) && q in b.live
    ensures Pg(v, q).pfn == Pg(m, q).pfn
  {
    assert PageOk(m, b, -1, q);
  }

  // The page just brought in sits where the pointer is, with its use bit set. The next search
  // takes it exactly if every page in memory has its use bit set.
  lemma NewestSpared(m: Vm, c: nat, k: nat, w: nat, p: nat)
    requires m.low < m.size && c < m.size - m.low && Stops(m, c, k, w)
    requires IsUser(m, m.low + c) && PdOf(m, m.low + c) == p && Pg(m, p).use
    ensures k == 0 <==> AllUsed(m, c)
  {
    assert ClockAt(m, c, 0) == m.low + c;
    assert UserAt(m, c, 0) && UseAt(m, c, 0);
    hide UserAt, UseAt;
  }

  lemma SecondTakes(m: Vm, b: Book, c: nat, k: nat, w: nat, p: nat, q: nat, m': Vm, c': nat)
    requires Owned(m, b, -1) && c < m.size - m.low && p in b.live && p != q
    requires Pg(m, p).pfn == m.low + c && Pg(m, p).use
    requires Stops(m, c, k, w) && ByClock(m, b, c, k, w, q, m', c')
    ensures Pg(m', p).pfn == -1 <==> AllUsed(m, c)
  {
    assert PageOk(m, b, -1, p);
    NewestSpared(m, c, k, w, p);
    SweptOnlyUse(m, b, c, w);
    SamePlace(m, b, Swept(m, c, w), p);
    assert ClockAt(m, c, k) == m.low + c <==> k == 0;
    hide Owned, Swept, Stops, AllUsed, IsUser;
  }

  // A page that was out before the first page-in is out after it.
  lemma StillOut(m: Vm, b: Book, c: nat, k: nat, w: nat, p: nat, m': Vm, c': nat, q: nat)
    requires Owned(m, b, -1) && c < m.size - m.low && Stops(m, c, k, w) && ByClock(m, b, c, k, w, p, m', c')
    requires q in b.live && q != p && Pg(m, q).pfn == -1
    ensures Pg(m', q).pfn == -1 && Pg(m', p).pfn == m.low + c' && Pg(m', p).use
  {
    SweptOnlyUse(m, b, c, w);
    SamePlace(m, b, Swept(m, c, w), q);
    hide Owned, Swept, Stops;
  }

  // Two page-ins in a row with no free frame. The second search starts where the first
  // stopped, and takes the page the first brought in exactly if every page in memory has its
  // use bit set.
  method EvictTwice(cm: CoreMap, p: nat, q: nat)
    returns (out: Outcome, ghost m1: Vm, ghost b1: Book, ghost c1: nat, ghost ks: (nat, nat), ghost ws: (nat, nat))
    requires cm.Valid() && p in cm.book.live && q in cm.book.live && cm.book.frames == []
    requires q != p && Pg(cm.View(), p).pfn == -1 && Pg(cm.View(), q).pfn == -1
    modifies cm
    ensures out == Done ==> cm.Valid()
    ensures out == Done ==> Stops(UsedVm(old(cm.View()), p), old(cm.clock), ks.0, ws.0)
    ensures out == Done ==> ByClock(UsedVm(old(cm.View()), p), old(cm.book), old(cm.clock), ks.0, ws.0, p, m1, c1)
    ensures out == Done ==> Stops(UsedVm(m1, q), c1, ks.1, ws.1)
    ensures out == Done ==> ByClock(UsedVm(m1, q), b1, c1, ks.1, ws.1, q, cm.View(), cm.clock)
    ensures out == Done ==> (Pg(cm.View(), p).pfn == -1 <==> AllUsed(UsedVm(m1, q), c1))
  {
    hide CoreMap.Valid, ByClock, Stops, UsedVm, SameShown, AllUsed, Owned, IsUser, DirtyAt;
    ghost var m, b, c := cm.View(), cm.book, cm.clock;
    ghost var k, w;
    InOrder(cm, p);
    out, k, w := cm.PageIn(p);
    m1, b1, c1, ks, ws := cm.View(), cm.book, cm.clock, (k, 0), (w, 0);
    if out != Done {
      return;
    }
    UsedOut(m, p, q);
    StillOut(UsedVm(m, p), b, c, k, w, p, m1, c1, q);
    InOrder(cm, q);
    out, k, w := cm.PageIn(q);
    ks, ws := (ks.0, k), (ws.0, w);
    if out == Done {
      UsedOut(m1, q, p);
      SecondTakes(UsedVm(m1, q), b1, c1, k, w, p, q, cm.View(), cm.clock);
    }
  }

  // What the search of a page-in starts from.
  lemma InOrder(cm: CoreMap, p: nat)
    requires cm.Valid() && p in cm.book.live
    ensures Owned(UsedVm(cm.View(), p), cm.book, -1) && cm.clock < cm.size - cm.low
    ensures UsedVm(cm.View(), p).low == cm.low && UsedVm(cm.View(), p).size == cm.size
  {
    hide Owned, Runs;
    UsedStep(cm.View(), cm.book, p);
    cm.ClockBound();
  }

  lemma UsedOut(m: Vm, p: nat, q: nat)
    requires q != p
    ensures Pg(UsedVm(m, p), q) == Pg(m, q)
  {
  }
}
