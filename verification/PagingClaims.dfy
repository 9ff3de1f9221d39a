// What a kernel request does to the pages: those in its frames go, and no other moves.
module PagingClaims {
  import opened Chains
  import opened PagingState
  import opened PagingSteps
  import opened PagingFacts

  // The frames of a list that are not from lo to hi, in order.
  function Outside(s: seq<nat>, lo: nat, hi: nat): seq<nat> {
    if s == [] then []
    else (if lo <= s[0] < hi then [] else [s[0]]) + Outside(s[1..], lo, hi)
  }

  lemma {:induction false} OutsideTwice(s: seq<nat>, lo: nat, mid: nat, hi: nat)
    requires lo <= mid <= hi
    ensures Outside(Outside(s, lo, mid), mid, hi) == Outside(s, lo, hi)
  {
    if s != [] {
      OutsideTwice(s[1..], lo, mid, hi);
      var t := Outside(s[1..], lo, mid);
      if lo <= s[0] < mid {
        assert Outside(s, lo, mid) == t;
      } else {
        assert Outside(s, lo, mid) == [s[0]] + t && ([s[0]] + t)[1..] == t;
      }
    }
  }

  lemma {:induction false} OutsideSame(s: seq<nat>, lo: nat, hi: nat)
    requires forall x :: x in s ==> !(lo <= x < hi)
    ensures Outside(s, lo, hi) == s
  {
    if s != [] {
      assert s[0] in s;
      assert forall x :: x in s[1..] ==> x in s;
      OutsideSame(s[1..], lo, hi);
    }
  }

  lemma {:induction false} OutsideOne(s: seq<nat>, k: nat)
    requires Distinct(s) && k < |s|
    ensures Outside(s, s[k], s[k] + 1) == RemoveAt(s, k)
  {
    var x := s[k];
    if k == 0 {
      OutsideSame(s[1..], x, x + 1);
    } else {
      OutsideOne(s[1..], k - 1);
      assert RemoveAt(s, k) == [s[0]] + RemoveAt(s[1..], k - 1);
    }
  }

  // A page that was in memory is out: in a slot if it can be written, else nowhere.
  predicate WentOut(a: Page, a': Page) {
    a' == EvictedPage(a, a'.sfn) && (a.dirty ==> a'.sfn >= 0)
  }

  // Frames lo to hi lost their pages or left the free list. Slots were taken from the head of
  // the chain. Every other page is as it was, and the free list is in the order it was in.
  ghost predicate Cleared(m: Vm, b: Book, m': Vm, b': Book, lo: nat, hi: nat) {
    && b'.frames == Outside(b.frames, lo, hi) && b'.live == b.live
    && |b'.slots| <= |b.slots| && b'.slots == b.slots[|b.slots| - |b'.slots|..]
    && (forall p: nat :: p in b.live ==> if lo <= Pg(m, p).pfn < hi then WentOut(Pg(m, p), Pg(m', p)) else Pg(m', p) == Pg(m, p))
  }

  lemma ClearedNone(m: Vm, b: Book, kv: seq<nat>, f: nat)
    ensures Cleared(m, b, m.(kern := kv), b, f, f)
  {
    OutsideSame(b.frames, f, f);
  }

  lemma ClearedTwice(m: Vm, b: Book, m1: Vm, b1: Book, m2: Vm, b2: Book, lo: nat, mid: nat, hi: nat)
    requires Cleared(m, b, m1, b1, lo, mid) && Cleared(m1, b1, m2, b2, mid, hi) && lo <= mid <= hi
    ensures Cleared(m, b, m2, b2, lo, hi)
  {
    hide Pg, Outside;
    OutsideTwice(b.frames, lo, mid, hi);
  }

  lemma ClearedFree(m: Vm, b: Book, m': Vm, b': Book, i: nat, k: nat)
    requires Owned(m, b, -1) && m.low <= i < m.size && k < |b.frames| && b.frames[k] == i
    requires m'.pages == m.pages && b' == b.(frames := RemoveAt(b.frames, k))
    ensures Cleared(m, b, m', b', i, i + 1)
  {
    OutsideOne(b.frames, k);
    assert FrameOk(m, b, -1, i);
    forall p: nat | p in b.live ensures Pg(m, p).pfn != i && Pg(m', p) == Pg(m, p) {
      assert PageOk(m, b, -1, p);
    }
  }

  lemma ClearedUser(m: Vm, b: Book, m': Vm, b': Book, i: nat)
    requires Owned(m, b, -1) && m.low <= i < m.size && IsUser(m, i) && Evicted(m, b, m', b', i)
    ensures Cleared(m, b, m', b', i, i + 1)
  {
    assert FrameOk(m, b, -1, i);
    OutsideSame(b.frames, i, i + 1);
    forall p: nat | p in b.live
      ensures if Pg(m, p).pfn == i then WentOut(Pg(m, p), Pg(m', p)) else Pg(m', p) == Pg(m, p)
    {
      EvictedOne(m, b, m', b', i, p);
    }
    hide Owned, FrameOk, WentOut;
  }

  lemma EvictedOne(m: Vm, b: Book, m': Vm, b': Book, i: nat, p: nat)
    requires Owned(m, b, -1) && m.low <= i < m.size && IsUser(m, i) && Evicted(m, b, m', b', i) && p in b.live
    ensures if Pg(m, p).pfn == i then WentOut(Pg(m, p), Pg(m', p)) else Pg(m', p) == Pg(m, p)
  {
    assert PageOk(m, b, -1, p);
    Occupied(m, b, i);
    hide Owned, SameShown;
  }

  // The kern fields are not looked at.
  lemma ClearedKern(m: Vm, b: Book, m': Vm, b': Book, lo: nat, hi: nat, k: seq<nat>, k': seq<nat>)
    requires Cleared(m.(kern := k), b, m'.(kern := k'), b', lo, hi)
    ensures Cleared(m, b, m', b', lo, hi)
  {
    assert forall p: nat :: Pg(m.(kern := k), p) == Pg(m, p) && Pg(m'.(kern := k'), p) == Pg(m', p);
    hide Pg, Outside;
  }
}
