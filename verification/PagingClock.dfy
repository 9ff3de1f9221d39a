// The second-chance clock of cm_push_to_swap, as a specification.
module PagingClock {
  import opened PagingState
  import opened PagingSteps

  // The clock pointer k steps after c, for at most one turn.
  function Turn(m: Vm, c: nat, k: nat): nat {
    if m.low < m.size <= m.low + c + k then c + k - (m.size - m.low) else c + k
  }

  // clock_to_index: the k-th frame in clock order from c.
  function ClockAt(m: Vm, c: nat, k: nat): nat {
    m.low + Turn(m, c, k)
  }

  predicate UserAt(m: Vm, c: nat, k: nat) {
    IsUser(m, ClockAt(m, c, k))
  }

  function PageAt(m: Vm, c: nat, k: nat): int {
    PdOf(m, ClockAt(m, c, k))
  }

  predicate UseAt(m: Vm, c: nat, k: nat) {
    PageAt(m, c, k) >= 0 && Pg(m, PageAt(m, c, k)).use
  }

  // m after the clock passed k frames: the use bit of each user frame passed is clear.
  function Swept(m: Vm, c: nat, k: nat): Vm {
    if k == 0 then m
    else
      var m1 := Swept(m, c, k - 1);
      if UserAt(m, c, k - 1) && PageAt(m, c, k - 1) >= 0 then ClearUse(m1, PageAt(m, c, k - 1)) else m1
  }

  lemma SweptNext(m: Vm, c: nat, k: nat)
    ensures Swept(m, c, k + 1) ==
            if UserAt(m, c, k) && PageAt(m, c, k) >= 0 then ClearUse(Swept(m, c, k), PageAt(m, c, k)) else Swept(m, c, k)
  {
  }

  function ClearUse(m: Vm, p: nat): Vm {
    m.(pages := m.pages[p := Pg(m, p).(use := false)])
  }

  // The first user frame in clock order whose use bit is clear.
  ghost predicate FirstUnused(m: Vm, c: nat, k: nat) {
    && k < m.size - m.low && UserAt(m, c, k) && !UseAt(m, c, k)
    && (forall j :: 0 <= j < k && UserAt(m, c, j) ==> UseAt(m, c, j))
  }

  ghost predicate AllUsed(m: Vm, c: nat) {
    forall j :: 0 <= j < m.size - m.low && UserAt(m, c, j) ==> UseAt(m, c, j)
  }

  ghost predicate FirstUser(m: Vm, c: nat, k: nat) {
    && k < m.size - m.low && UserAt(m, c, k)
    && (forall j :: 0 <= j < k ==> !UserAt(m, c, j))
  }

  // The clock stops at its k-th frame after passing w frames in all.
  ghost predicate Stops(m: Vm, c: nat, k: nat, w: nat) {
    || (FirstUnused(m, c, k) && w == k)
    || (AllUsed(m, c) && FirstUser(m, c, k) && w == m.size - m.low)
  }

  // There is one place to stop, and only if some frame is not a kernel frame.
  lemma StopsOnce(m: Vm, c: nat, k: nat, w: nat, k': nat, w': nat)
    requires Stops(m, c, k, w) && Stops(m, c, k', w')
    ensures k == k' && w == w'
  {
    hide UserAt, UseAt;
  }

  // Clock order visits every managed frame once a turn.
  lemma ClockCovers(m: Vm, c: nat, f: nat) returns (k: nat)
    requires m.low <= f < m.size && c < m.size - m.low
    ensures k < m.size - m.low && ClockAt(m, c, k) == f
    ensures forall j: nat :: j < m.size - m.low && ClockAt(m, c, j) == f ==> j == k
  {
    k := if f - m.low >= c then f - m.low - c else f - m.low - c + (m.size - m.low);
  }

  lemma ClockInside(m: Vm, c: nat, k: nat)
    requires m.low < m.size && c < m.size - m.low && k < m.size - m.low
    ensures m.low <= ClockAt(m, c, k) < m.size
  {
  }

  // Each pointer advance is one step of the clock.
  lemma Advance(m: Vm, c: nat, k: nat)
    requires m.low < m.size && c < m.size - m.low && k < m.size - m.low
    ensures (Turn(m, c, k) + 1) % (m.size - m.low) == Turn(m, c, k + 1) < m.size - m.low
  {
    var n, x := m.size - m.low, Turn(m, c, k);
    if x + 1 == n { assert n % n == 0; } else { SmallMod(x + 1, n); }
  }

  // A whole turn ends where it began.
  lemma WholeTurn(m: Vm, c: nat)
    requires m.low < m.size && c < m.size - m.low
    ensures Turn(m, c, 0) == c && Turn(m, c, m.size - m.low) == c && Swept(m, c, 0) == m
  {
  }

  lemma SmallMod(x: nat, n: nat)
    requires x < n
    ensures x % n == x
  {
  }

  lemma {:induction false} SweptOnlyUse(m: Vm, b: Book, c: nat, k: nat)
    requires Owned(m, b, -1) && c < m.size - m.low && k <= m.size - m.low
    ensures OnlyUse(m, Swept(m, c, k))
    ensures Owned(Swept(m, c, k), b, -1) && SameShown(m, b, Swept(m, c, k), b)
  {
    if k == 0 {
      UseStep(m, b, m);
    } else {
      SweptOnlyUse(m, b, c, k - 1);
      if UserAt(m, c, k - 1) { PageListed(m, b, c, k - 1); }
      hide Owned, SameShown, UserAt;
      UseStep(m, b, Swept(m, c, k));
    }
  }

  lemma PageListed(m: Vm, b: Book, c: nat, k: nat)
    requires Owned(m, b, -1) && c < m.size - m.low && k < m.size - m.low && UserAt(m, c, k)
    ensures PageAt(m, c, k) >= 0 && PageAt(m, c, k) in b.live && PageAt(m, c, k) in m.pages
    ensures Pg(m, PageAt(m, c, k)).pfn == ClockAt(m, c, k)
  {
    ClockInside(m, c, k);
    assert FrameOk(m, b, -1, ClockAt(m, c, k));
    assert PageOk(m, b, -1, PageAt(m, c, k));
  }

  // Sweeping clears the use bits of the user frames passed and of no other page.
  lemma {:induction false} SweptUse(m: Vm, b: Book, c: nat, k: nat, p: nat)
    requires Owned(m, b, -1) && c < m.size - m.low && k <= m.size - m.low
    ensures Pg(Swept(m, c, k), p).use <==> Pg(m, p).use && !(exists j :: 0 <= j < k && UserAt(m, c, j) && PageAt(m, c, j) == p)
  {
    hide Owned, UserAt, PageAt;
    if k > 0 {
      SweptUse(m, b, c, k - 1, p);
      if UserAt(m, c, k - 1) { PageListed(m, b, c, k - 1); }
      var m1, m' := Swept(m, c, k - 1), Swept(m, c, k);
      if exists j :: 0 <= j < k && UserAt(m, c, j) && PageAt(m, c, j) == p {
        var j :| 0 <= j < k && UserAt(m, c, j) && PageAt(m, c, j) == p;
        if j < k - 1 { assert !Pg(m1, p).use; }
      }
      if Pg(m, p).use && !Pg(m', p).use {
        if !(UserAt(m, c, k - 1) && PageAt(m, c, k - 1) == p) { assert Pg(m', p) == Pg(m1, p); }
      }
    }
  }

  // The bit at the next frame is as it was: no page sits in two frames.
  lemma UseAhead(m: Vm, b: Book, c: nat, k: nat)
    requires Owned(m, b, -1) && c < m.size - m.low && k < m.size - m.low && UserAt(m, c, k)
    ensures UseAt(Swept(m, c, k), c, k) <==> UseAt(m, c, k)
    ensures forall j: nat :: UserAt(Swept(m, c, k), c, j) == UserAt(m, c, j) && PageAt(Swept(m, c, k), c, j) == PageAt(m, c, j)
  {
    SweptOnlyUse(m, b, c, k);
    PageListed(m, b, c, k);
    var p: nat := PageAt(m, c, k);
    SweptUse(m, b, c, k, p);
    forall j | 0 <= j < k && UserAt(m, c, j) ensures PageAt(m, c, j) != p {
      PageListed(m, b, c, j);
    }
  }

  // What cm_push_to_swap sees at its j-th frame after passing w.
  lemma ClockSees(m: Vm, b: Book, c: nat, w: nat, j: nat)
    requires Owned(m, b, -1) && b.frames == [] && c < m.size - m.low && w <= m.size - m.low && j < m.size - m.low
    ensures var v := Swept(m, c, w); var f := ClockAt(m, c, j);
            && Owned(v, b, -1) && SameShown(m, b, v, b) && Shape(v) && v.low == m.low && v.size == m.size
            && m.low <= f < m.size && (v.kern[f] == 0 <==> UserAt(m, c, j)) && (v.kern[f] == 0 <==> IsUser(v, f))
            && v.pd[f] == PageAt(m, c, j)
            && (v.kern[f] == 0 ==> v.pd[f] >= 0 && v.pd[f] in v.pages && (w == j ==> (Pg(v, v.pd[f]).use <==> UseAt(m, c, j))))
  {
    SweptOnlyUse(m, b, c, w);
    ClockInside(m, c, j);
    var f := ClockAt(m, c, j);
    assert FrameOk(m, b, -1, f);
    if UserAt(m, c, j) {
      PageListed(m, b, c, j);
      if w == j { UseAhead(m, b, c, j); }
    }
    hide Owned, SameShown, Swept, FrameOk;
  }

  // Only kernel frames on a whole turn: no frame is a user frame.
  lemma NoneAtAll(m: Vm, c: nat)
    requires m.low < m.size && c < m.size - m.low && forall j :: 0 <= j < m.size - m.low ==> !UserAt(m, c, j)
    ensures forall f :: m.low <= f < m.size ==> !IsUser(m, f)
  {
    forall f: nat | m.low <= f < m.size ensures !IsUser(m, f) {
      var k := ClockCovers(m, c, f);
      assert !UserAt(m, c, k);
    }
  }

  predicate DirtyAt(m: Vm, c: nat, k: nat) {
    PageAt(m, c, k) >= 0 && Pg(m, PageAt(m, c, k)).dirty
  }

  // The frame the clock stops at.
  lemma StopFacts(m: Vm, b: Book, c: nat, k: nat, w: nat)
    requires Owned(m, b, -1) && b.frames == [] && c < m.size - m.low && Stops(m, c, k, w)
    ensures var v := Swept(m, c, w); var f := ClockAt(m, c, k);
            && Owned(v, b, -1) && m.low <= f < m.size && IsUser(v, f) && PdOf(v, f) == PageAt(m, c, k)
            && IsUser(m, f) && PageAt(m, c, k) >= 0 && Pg(v, PageAt(m, c, k)).dirty == DirtyAt(m, c, k)
            && SameShown(m, b, v, b) && v.low == m.low && v.size == m.size
  {
    ClockSees(m, b, c, w, k);
    PageListed(m, b, c, k);
    hide Owned, Swept;
  }

  // A page that is not in memory is left alone by the clock and by the eviction.
  lemma SweptElsewhere(m: Vm, b: Book, c: nat, k: nat, w: nat, p: nat)
    requires Owned(m, b, -1) && b.frames == [] && c < m.size - m.low && Stops(m, c, k, w)
    requires p in b.live && Pg(m, p).pfn == -1
    ensures Pg(Swept(m, c, w), p) == Pg(m, p) && PageAt(m, c, k) != p
  {
    SweptUse(m, b, c, w, p);
    SweptOnlyUse(m, b, c, w);
    PageListed(m, b, c, k);
    assert p in m.pages by { assert PageOk(m, b, -1, p); }
    forall j | 0 <= j < w && UserAt(m, c, j) ensures PageAt(m, c, j) != p {
      PageListed(m, b, c, j);
    }
    hide Owned, Swept, UserAt, PageAt, ClockAt;
  }
}
