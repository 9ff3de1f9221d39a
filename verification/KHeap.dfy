// The subpage allocator: subpage_kmalloc and subpage_kfree.
module KHeaps {
  import opened Chains
  import opened KHeapState
  import opened KHeapSteps
  import opened KHeapPages

  // The addresses of the pages the allocator holds.
  ghost function PageSet(h: Heap, g: Book): set<nat> {
    set p | p in g.all :: Addr(h, p)
  }

  // No page with blocks of n bytes has a free one.
  ghost predicate Filled(h: Heap, g: Book, n: nat) {
    forall p :: p in g.all && Type(h, p) < 8 && Size(Type(h, p)) == n ==> Free(g, p) == []
  }

  // p is the first page on the chain of type t with a free block.
  ghost predicate FirstRoom(g: Book, t: nat, p: nat) {
    && t < |g.same| && Free(g, p) != []
    && exists i :: 0 <= i < |g.same[t]| && g.same[t][i] == p && forall k :: 0 <= k < i ==> Free(g, g.same[t][k]) == []
  }

  // What kmalloc hands out: the first free block of the first page with room, or the first
  // of a new page.
  ghost predicate FirstFree(h: Heap, g: Book, n: nat, ptr: nat) {
    exists t: nat, p: nat :: t < 8 && Size(t) == n && FirstRoom(g, t, p) && ptr == Addr(h, p) + Free(g, p)[0]
  }

  // ptr is the first free block of its page.
  ghost predicate FirstOnPage(h: Heap, g: Book, ptr: nat) {
    exists p :: p in g.all && Free(g, p) != [] && ptr == Addr(h, p) + Free(g, p)[0]
  }

  // ptr lies on none of the allocator's pages.
  ghost predicate NotOurs(h: Heap, g: Book, ptr: nat) {
    forall p :: p in g.all ==> ptr < Addr(h, p) || Addr(h, p) + 4096 <= ptr
  }

  lemma LiveFromOut(h: Heap, g: Book, h': Heap, g': Book, p: nat, o: nat)
    requires forall q: nat, x: nat :: Out(h', g', q, x) <==> Out(h, g, q, x) || (q == p && x == o)
    requires Out(h', g', p, o)
    requires forall q: nat :: Addr(h', q) == Addr(h, q) && Type(h', q) == Type(h, q)
    ensures forall a: nat, n: nat :: Live(h', g', a, n) <==> Live(h, g, a, n) || (a == Addr(h, p) + o && n == Size(Type(h, p)))
  {
    hide Addr, Type, Out, IsOffset, Size;
    assert Type(h', p) < 8 by { OutType(h', g', p, o); }
    forall a: nat, n: nat
      ensures Live(h', g', a, n) <==> Live(h, g, a, n) || (a == Addr(h, p) + o && n == Size(Type(h, p)))
    {
      if Live(h, g, a, n) {
        var q: nat, x: nat :| BlockIs(h, g, q, x, a, n);
        assert BlockIs(h', g', q, x, a, n);
      }
      if a == Addr(h, p) + o && n == Size(Type(h, p)) { assert BlockIs(h', g', p, o, a, n); }
      if Live(h', g', a, n) {
        var q: nat, x: nat :| BlockIs(h', g', q, x, a, n);
        assert (q == p && x == o) || BlockIs(h, g, q, x, a, n);
      }
    }
  }

  lemma FreeCount(h: Heap, g: Book, p: nat)
    requires HeapOk(h, g) && p in g.all
    ensures p < 256 && h.prs[p].nfree == |Free(g, p)|
  {
    FreeListOf(h, g, p);
  }

  lemma ListFacts(h: Heap, g: Book)
    requires HeapOk(h, g)
    ensures |h.bases| == 8 && |g.same| == 8 && |h.inuse| == 256
    ensures forall p :: p in g.all ==> p < 256 && Type(h, p) < 8 && h.inuse[p]
  {
    hide AllChain, SameChain;
  }

  lemma OutType(h: Heap, g: Book, p: nat, o: nat)
    requires Out(h, g, p, o)
    ensures Type(h, p) < 8
  {
  }

  // Word i of the in-use map is 0xffffffff.
  predicate FullWord(inuse: seq<bool>, i: nat)
    requires 32 * i + 32 <= |inuse|
  {
    forall k :: 32 * i <= k < 32 * i + 32 ==> inuse[k]
  }

  lemma ChainOf(h: Heap, g: Book, t: nat)
    requires HeapOk(h, g) && t < 8
    ensures |g.same| == 8 && |h.bases| == 8 && SameChain(h.prs, h.bases[t], g.same[t])
    ensures forall p :: p in g.same[t] ==> p in g.all && p < 256 && Type(h, p) == t
    ensures forall p :: p in g.all && Type(h, p) == t ==> p in g.same[t]
  {
    hide AllChain, SameChain, Type;
    forall p | p in g.same[t] ensures p in g.all && p < 256 && Type(h, p) == t {
      assert p in g.all;
    }
  }

  // Address a is not handed out.
  ghost predicate Vacant(h: Heap, g: Book, a: nat) {
    forall m: nat :: !Live(h, g, a, m)
  }

  // One block more, and only that one, is handed out: n bytes at a.
  ghost predicate OneMore(h: Heap, g: Book, h': Heap, g': Book, a: nat, n: nat) {
    && a > 0 && Vacant(h, g, a)
    && (forall b: nat, m: nat :: Live(h', g', b, m) <==> Live(h, g, b, m) || (b == a && m == n))
  }

  // The first free block of page p was unlinked.
  ghost predicate Took(h: Heap, g: Book, h': Heap, g': Book, p: nat) {
    && HeapOk(h, g) && HeapOk(h', g') && p in g.all && g'.all == g.all && Free(g, p) != []
    && (forall q: nat :: Free(g', q) == if q == p then Free(g, p)[1..] else Free(g, q))
    && (forall q: nat :: Addr(h', q) == Addr(h, q) && Type(h', q) == Type(h, q))
    && !Out(h, g, p, Free(g, p)[0])
    && (forall q: nat, x: nat :: Out(h', g', q, x) <==> Out(h, g, q, x) || (q == p && x == Free(g, p)[0]))
  }

  // Taking a block from a page hands out that block, and the page is not idle.
  lemma TookLive(h: Heap, g: Book, h': Heap, g': Book, p: nat)
    requires Took(h, g, h', g', p)
    ensures Type(h, p) < 8 && OneMore(h, g, h', g', Addr(h, p) + Free(g, p)[0], Size(Type(h, p)))
    ensures NoIdlePage(h, g) ==> NoIdlePage(h', g')
  {
    hide HeapOk, Addr, Type, Size, PerPage, Live, Out;
    PagePositive(h, g, p);
    var o := Free(g, p)[0];
    assert Out(h', g', p, o);
    OutType(h', g', p, o);
    LiveFromOut(h, g, h', g', p, o);
    NotLiveBefore(h, g, p, o);
  }

  lemma PagePositive(h: Heap, g: Book, p: nat)
    requires HeapOk(h, g) && p in g.all
    ensures Addr(h, p) > 0 && p < 256
  {
    FreeListOf(h, g, p);
  }

  lemma NotLiveBefore(h: Heap, g: Book, p: nat, o: nat)
    requires HeapOk(h, g) && p in g.all && !Out(h, g, p, o) && o in Free(g, p)
    ensures Vacant(h, g, Addr(h, p) + o)
  {
    FreeListOf(h, g, p);
    hide Lists, Addr, Size;
    var a := Addr(h, p) + o;
    forall m: nat ensures !Live(h, g, a, m) {
      if Live(h, g, a, m) {
        var q: nat, x: nat :| BlockIs(h, g, q, x, a, m);
        SameBlock(h, g, p, o, q, x);
      }
    }
  }

  // A page of n free blocks was added, nothing else.
  ghost predicate Grown(h: Heap, g: Book, h1: Heap, g1: Book, p: nat) {
    && HeapOk(h, g) && HeapOk(h1, g1) && p !in g.all && g1.all == [p] + g.all && p < 256
    && (forall q: nat :: q != p ==> Pr(h1, q) == Pr(h, q) && Free(g1, q) == Free(g, q))
    && (forall q: nat, x: nat :: Out(h1, g1, q, x) <==> Out(h, g, q, x))
    && Type(h1, p) < 8 && |Free(g1, p)| == PerPage(Type(h1, p))
  }

  // A fresh page, then a block of it: again one block more and no idle page.
  lemma GrewLive(h: Heap, g: Book, h1: Heap, g1: Book, h2: Heap, g2: Book, p: nat)
    requires Grown(h, g, h1, g1, p) && Took(h1, g1, h2, g2, p) && NoIdlePage(h, g)
    ensures Type(h1, p) < 8 && OneMore(h, g, h2, g2, Addr(h1, p) + Free(g1, p)[0], Size(Type(h1, p)))
    ensures NoIdlePage(h2, g2)
  {
    assert forall q: nat :: q != p ==> Addr(h1, q) == Addr(h, q) && Type(h1, q) == Type(h, q);
    SameLive(h, g, h1, g1, p);
    TookLive(h1, g1, h2, g2, p);
    hide HeapOk, Addr, Type, Size, PerPage, Live, Out, Pr;
  }

  lemma TookFacts(h: Heap, g: Book, h': Heap, g': Book, p: nat)
    requires Took(h, g, h', g', p)
    ensures HeapOk(h', g')
  {
  }

  lemma GrownFacts(h: Heap, g: Book, h1: Heap, g1: Book, p: nat)
    requires Grown(h, g, h1, g1, p)
    ensures HeapOk(h1, g1) && p in g1.all
  {
    hide HeapOk, Out, Pr;
  }

  // A page with nothing handed out adds no live block.
  lemma SameLive(h: Heap, g: Book, h1: Heap, g1: Book, p: nat)
    requires p !in g.all
    requires forall q: nat, x: nat :: Out(h1, g1, q, x) <==> Out(h, g, q, x)
    requires forall q: nat :: q != p ==> Addr(h1, q) == Addr(h, q) && Type(h1, q) == Type(h, q)
    ensures forall a: nat, m: nat :: Live(h1, g1, a, m) <==> Live(h, g, a, m)
  {
    hide Addr, Type, Size, IsOffset;
    forall a: nat, m: nat ensures Live(h1, g1, a, m) <==> Live(h, g, a, m) {
      if Live(h, g, a, m) {
        var q: nat, x: nat :| BlockIs(h, g, q, x, a, m);
        assert BlockIs(h1, g1, q, x, a, m);
      }
      if Live(h1, g1, a, m) {
        var q: nat, x: nat :| BlockIs(h1, g1, q, x, a, m);
        assert Out(h, g, q, x) && BlockIs(h, g, q, x, a, m);
      }
    }
  }

  lemma AllChainOf(h: Heap, g: Book)
    requires HeapOk(h, g)
    ensures AllChain(h.prs, h.allbase, g.all)
  {
    hide AllChain, SameChain, Pages;
  }

  lemma OutIn(h: Heap, g: Book, p: nat, o: nat)
    requires Out(h, g, p, o)
    ensures p in g.all && o !in Free(g, p) && o < 4096
  {
  }

  // The freelist offset of a pageref is its first free block, INVALID_OFFSET for none.
  lemma FirstIs(h: Heap, g: Book, p: nat)
    requires HeapOk(h, g) && p in g.all
    ensures p < 256 && (h.prs[p].freeOff == 0xffff <==> Free(g, p) == [])
    ensures Free(g, p) != [] ==> h.prs[p].freeOff == Free(g, p)[0]
  {
    FreeListOf(h, g, p);
    if Free(g, p) != [] {
      ChainTail(h.mem, Addr(h, p), Type(h, p), Free(g, p));
    }
  }

  lemma Stored(m0: Mem, m1: Mem, a: nat, n: nat, v: nat)
    requires n > 0 && forall x: nat :: x < a || a + n <= x ==> Load(m1, x) == Load(m0, x)
    ensures Rewritten(m0, m1[a := v], a, n, v)
  {
  }

  // All words of a block but the first, where the link is, are overwritten.
  ghost predicate Deadened(mem: Mem, a: nat, n: nat) {
    forall k: nat {:trigger 4 * k} :: 1 <= k < n / 4 ==> Load(mem, a + 4 * k) == DEADBEEF
  }

  lemma StillDead(m: Mem, a: nat, n: nat, v: nat)
    requires Deadened(m, a, n)
    ensures Deadened(m[a := v], a, n)
  {
  }

  // Block o of page p went back on its page's freelist.
  ghost predicate Gave(h: Heap, g: Book, h': Heap, g': Book, p: nat, o: nat) {
    && HeapOk(h, g) && HeapOk(h', g') && Out(h, g, p, o) && g'.all == g.all
    && (forall q: nat :: Free(g', q) == if q == p then [o] + Free(g, p) else Free(g, q))
    && (forall q: nat :: Addr(h', q) == Addr(h, q) && Type(h', q) == Type(h, q))
    && (forall q: nat, x: nat :: Out(h', g', q, x) <==> Out(h, g, q, x) && !(q == p && x == o))
  }

  // Page p left the lists, with nothing of it handed out.
  ghost predicate Shrunk(h: Heap, g: Book, h': Heap, g': Book, p: nat) {
    && HeapOk(h, g) && HeapOk(h', g') && p in g.all
    && (forall q :: q in g'.all <==> q in g.all && q != p)
    && (forall q: nat :: q != p ==> Free(g', q) == Free(g, q))
    && (forall q: nat :: Addr(h', q) == Addr(h, q) && Type(h', q) == Type(h, q))
    && (forall q: nat, x: nat :: Out(h', g', q, x) <==> Out(h, g, q, x) && q != p)
  }

  lemma AllChainKept(h: Heap, g: Book, h1: Heap, t: nat, k: nat)
    requires AllChain(h.prs, h.allbase, g.all) && t < |h.bases| && t < |g.same| && k < |g.same[t]|
    requires k > 0 ==> g.same[t][k - 1] < 256
    requires h1 == UnlinkSame(h, t, g.same[t], k)
    ensures AllChain(h1.prs, h1.allbase, g.all)
  {
    forall i | 0 <= i < |g.all| ensures AllNode(h1.prs, g.all, i) {
      assert AllNode(h.prs, g.all, i);
    }
  }

  lemma DropStepOk(h: Heap, g: Book, i: nat, t: nat, k: nat)
    requires HeapOk(h, g) && i < |g.all| && t < 8 && k < |g.same[t]| && g.all[i] == g.same[t][k]
    ensures Shrunk(h, g, DropHeap(h, g, i, t, k), DropBook(g, i, t, k), g.all[i])
  {
    DropStep(h, g, i, t, k);
    DropLists(h, g, i, t, k);
    SameRefsViews(h, DropHeap(h, g, i, t, k));
    AllChainOf(h, g);
    RemoveAtMembers(g.all, i);
    hide HeapOk, DropHeap, Out, Type, Addr, RemoveAt;
  }

  // The block at a, and only that one, is no longer handed out.
  ghost predicate OneLess(h: Heap, g: Book, h': Heap, g': Book, a: nat) {
    && !Vacant(h, g, a)
    && (forall b: nat, m: nat :: Live(h', g', b, m) <==> Live(h, g, b, m) && b != a)
  }

  // The block handed out at ptr is the one at ptr's offset on the page it lies on.
  lemma LiveOnPage(h: Heap, g: Book, p: nat, ptr: nat)
    requires HeapOk(h, g) && p in g.all && Addr(h, p) <= ptr < Addr(h, p) + 4096
    requires NotOurs(h, g, ptr) || !Vacant(h, g, ptr)
    ensures Out(h, g, p, ptr - Addr(h, p)) && !Vacant(h, g, ptr)
  {
    hide HeapOk, Addr, Type, Size;
    var m: nat :| Live(h, g, ptr, m);
    var q: nat, x: nat :| BlockIs(h, g, q, x, ptr, m);
    OutIn(h, g, q, x);
    PagesOf(h, g);
    SameBlock(h, g, p, ptr - Addr(h, p), q, x);
  }

  lemma PagesOf(h: Heap, g: Book)
    requires HeapOk(h, g)
    ensures Pages(h, g)
  {
    hide Lists, Pages;
  }

  lemma OutAligned(h: Heap, g: Book, p: nat, o: nat)
    requires Out(h, g, p, o)
    ensures Type(h, p) < 8 && o % Size(Type(h, p)) == 0
  {
    hide Size;
  }

  // Taking a block back takes it out of the live blocks.
  lemma GaveLive(h: Heap, g: Book, h': Heap, g': Book, p: nat, o: nat)
    requires Gave(h, g, h', g', p, o)
    ensures OneLess(h, g, h', g', Addr(h, p) + o)
  {
    hide HeapOk, Addr, Type, Out, Size;
    PagesOf(h, g);
    OutType(h, g, p, o);
    OutIn(h, g, p, o);
    var a := Addr(h, p) + o;
    assert BlockIs(h, g, p, o, a, Size(Type(h, p)));
    assert Live(h, g, a, Size(Type(h, p)));
    forall b: nat, m: nat ensures Live(h', g', b, m) <==> Live(h, g, b, m) && b != a {
      if Live(h, g, b, m) && b != a {
        var q: nat, x: nat :| BlockIs(h, g, q, x, b, m);
        assert BlockIs(h', g', q, x, b, m);
      }
      if Live(h', g', b, m) {
        var q: nat, x: nat :| BlockIs(h', g', q, x, b, m);
        assert BlockIs(h, g, q, x, b, m);
        OutIn(h, g, q, x);
        if b == a { SameBlock(h, g, p, o, q, x); }
      }
    }
  }

  // The page set follows the list of all pages.
  lemma SamePages(h: Heap, g: Book, h': Heap, g': Book)
    requires g'.all == g.all && forall q: nat :: Addr(h', q) == Addr(h, q)
    ensures PageSet(h', g') == PageSet(h, g)
  {
    hide Addr;
    forall a ensures a in PageSet(h', g') <==> a in PageSet(h, g) {
      if a in PageSet(h, g) {
        var q :| q in g.all && a == Addr(h, q);
        assert q in g'.all && a == Addr(h', q);
      }
      if a in PageSet(h', g') {
        var q :| q in g'.all && a == Addr(h', q);
        assert q in g.all && a == Addr(h, q);
      }
    }
  }

  // A page is kept while one of its blocks is handed out.
  lemma GaveOnly(h: Heap, g: Book, h': Heap, g': Book, p: nat, o: nat)
    requires Gave(h, g, h', g', p, o) && NoIdlePage(h, g)
    requires Type(h', p) < 8 && |Free(g', p)| != PerPage(Type(h', p))
    ensures OneLess(h, g, h', g', Addr(h, p) + o) && NoIdlePage(h', g') && HeapOk(h', g')
    ensures PageSet(h', g') == PageSet(h, g)
  {
    hide HeapOk, Addr, Type, Out, PerPage, OneLess, PageSet;
    GaveLive(h, g, h', g', p, o);
    OutIn(h, g, p, o);
    SamePages(h, g, h', g');
  }

  lemma ShrunkPages(h: Heap, g: Book, h': Heap, g': Book, p: nat)
    requires Shrunk(h, g, h', g', p)
    ensures Addr(h, p) > 0 && Addr(h, p) in PageSet(h, g)
    ensures PageSet(h', g') == PageSet(h, g) - {Addr(h, p)}
  {
    hide HeapOk, Addr, Type, Out;
    PagePositive(h, g, p);
    forall a ensures a in PageSet(h', g') <==> a in PageSet(h, g) && a != Addr(h, p) {
      if a in PageSet(h, g) && a != Addr(h, p) {
        var q :| q in g.all && a == Addr(h, q);
        assert q in g'.all && a == Addr(h', q);
      }
      if a in PageSet(h', g') {
        var q :| q in g'.all && a == Addr(h', q);
        assert q in g.all && a == Addr(h, q);
        PageOnce(h, g, q, p);
      }
    }
  }

  lemma PageOnce(h: Heap, g: Book, q: nat, p: nat)
    requires HeapOk(h, g) && q in g.all && p in g.all && q != p
    ensures Addr(h, q) != Addr(h, p)
  {
    hide Lists, FreeList, Addr;
  }

  function BlockIndex(t: nat, o: nat): nat
    requires t < 8
  {
    o / Size(t)
  }

  lemma IndexOf(t: nat, o: nat)
    requires IsOffset(t, o)
    ensures BlockIndex(t, o) < PerPage(t) && o == BlockIndex(t, o) * Size(t)
  {
    hide Size, PerPage, IsOffset;
    OffsetIndex(t, o);
  }

  lemma SameIndex(t: nat, a: nat, b: nat)
    requires IsOffset(t, a) && IsOffset(t, b) && BlockIndex(t, a) == BlockIndex(t, b)
    ensures a == b
  {
    hide Size, PerPage, IsOffset, BlockIndex;
    IndexOf(t, a);
    IndexOf(t, b);
  }

  function IndexSeq(t: nat, f: seq<nat>): (r: seq<nat>)
    requires t < 8
    ensures |r| == |f| && forall i :: 0 <= i < |f| ==> r[i] == BlockIndex(t, f[i])
  {
    seq(|f|, i requires 0 <= i < |f| => BlockIndex(t, f[i]))
  }

  // A page with as many free blocks as it has blocks has nothing handed out.
  lemma FullFreelist(t: nat, f: seq<nat>, o: nat)
    requires t < 8 && Distinct(f) && |f| == PerPage(t) && IsOffset(t, o)
    requires forall i :: 0 <= i < |f| ==> IsOffset(t, f[i])
    ensures o in f
  {
    hide Size, PerPage, IsOffset, BlockIndex, IndexSeq;
    var r := IndexSeq(t, f);
    forall i, k | 0 <= i < k < |f| ensures r[i] != r[k] {
      if r[i] == r[k] { SameIndex(t, f[i], f[k]); }
    }
    forall i | 0 <= i < |f| ensures r[i] in UpTo(|f|) { IndexOf(t, f[i]); }
    Pigeonhole(r, UpTo(|f|));
    IndexOf(t, o);
    assert BlockIndex(t, o) in r;
    var i :| 0 <= i < |r| && r[i] == BlockIndex(t, o);
    SameIndex(t, f[i], o);
  }

  lemma IdlePage(h: Heap, g: Book, p: nat, o: nat)
    requires HeapOk(h, g) && p in g.all && Type(h, p) < 8 && |Free(g, p)| == PerPage(Type(h, p))
    ensures !Out(h, g, p, o)
  {
    if Out(h, g, p, o) {
      FreeListOf(h, g, p);
      FullFreelist(Type(h, p), Free(g, p), o);
    }
  }

  // Dropping the page of the last block leaves the other live blocks alone.
  lemma GaveAndShrunk(h: Heap, g: Book, h1: Heap, g1: Book, h2: Heap, g2: Book, p: nat, o: nat)
    requires Gave(h, g, h1, g1, p, o) && Shrunk(h1, g1, h2, g2, p) && NoIdlePage(h, g)
    requires Type(h1, p) < 8 && |Free(g1, p)| == PerPage(Type(h1, p))
    ensures OneLess(h, g, h2, g2, Addr(h, p) + o) && NoIdlePage(h2, g2) && HeapOk(h2, g2)
    ensures Addr(h, p) > 0 && Addr(h, p) in PageSet(h, g) && PageSet(h2, g2) == PageSet(h, g) - {Addr(h, p)}
  {
    hide HeapOk, Addr, Type, Out, PerPage, Live, PageSet;
    GaveLive(h, g, h1, g1, p, o);
    forall x: nat ensures !Out(h1, g1, p, x) { IdlePage(h1, g1, p, x); }
    SameOutLive(h1, g1, h2, g2);
    ShrunkPages(h1, g1, h2, g2, p);
    SamePages(h, g, h1, g1);
  }

  // Live blocks are what is handed out.
  lemma SameOutLive(h: Heap, g: Book, h': Heap, g': Book)
    requires forall q: nat, x: nat :: Out(h', g', q, x) <==> Out(h, g, q, x)
    requires forall q: nat :: Addr(h', q) == Addr(h, q) && Type(h', q) == Type(h, q)
    ensures forall a: nat, m: nat :: Live(h', g', a, m) <==> Live(h, g, a, m)
  {
    hide Addr, Type, Size, IsOffset;
    forall a: nat, m: nat ensures Live(h', g', a, m) <==> Live(h, g, a, m) {
      if Live(h, g, a, m) {
        var q: nat, x: nat :| BlockIs(h, g, q, x, a, m);
        assert BlockIs(h', g', q, x, a, m);
      }
      if Live(h', g', a, m) {
        var q: nat, x: nat :| BlockIs(h', g', q, x, a, m);
        assert BlockIs(h, g, q, x, a, m);
      }
    }
  }

  // Memory changed at most in the n bytes at a.
  ghost predicate ChangedOnly(m0: Mem, m1: Mem, a: nat, n: nat) {
    forall x: nat :: x < a || a + n <= x ==> Load(m1, x) == Load(m0, x)
  }

  // Every block handed out, but for the one at freed, holds in mem' what it held.
  ghost predicate Untouched(h: Heap, g: Book, mem': Mem, freed: nat) {
    forall b: nat, m: nat, x: nat ::
      Live(h, g, b, m) && b != freed && b <= x < b + m ==> Load(mem', x) == Load(h.mem, x)
  }

  lemma AllUntouched(h: Heap, g: Book)
    ensures forall freed: nat :: Untouched(h, g, h.mem, freed)
  {
  }

  lemma BlockInside(h: Heap, g: Book, b: nat, m: nat) returns (q: nat)
    requires Live(h, g, b, m)
    ensures q in g.all && Addr(h, q) <= b && b + m <= Addr(h, q) + 4096
  {
    hide Addr, Type, Size;
    var x: nat;
    q, x :| BlockIs(h, g, q, x, b, m);
    OffsetFits(Type(h, q), x);
  }

  // A page that was not ours holds no live block.
  lemma FreshUntouched(h: Heap, g: Book, mem': Mem, page: nat)
    requires page % 4096 == 0 && page !in PageSet(h, g) && ChangedOnly(h.mem, mem', page, 4096)
    ensures Untouched(h, g, mem', 0)
  {
    hide Live, Load, Addr;
    forall b: nat, m: nat, x: nat | Live(h, g, b, m) && b <= x < b + m ensures Load(mem', x) == Load(h.mem, x) {
      var q := BlockInside(h, g, b, m);
      AddrAligned(h, q);
      PagesApart(Addr(h, q), page);
    }
  }

  lemma OthersUntouched(h: Heap, g: Book, mem': Mem, p: nat, o: nat)
    requires HeapOk(h, g) && Out(h, g, p, o)
    requires Type(h, p) < 8 && ChangedOnly(h.mem, mem', Addr(h, p) + o, Size(Type(h, p)))
    ensures Untouched(h, g, mem', Addr(h, p) + o)
  {
    hide HeapOk, Load, Addr, Type, Size, Out;
    var a, n := Addr(h, p) + o, Size(Type(h, p));
    assert BlockIs(h, g, p, o, a, n);
    assert Live(h, g, a, n);
    forall b: nat, m: nat, x: nat | Live(h, g, b, m) && b != a && b <= x < b + m ensures Load(mem', x) == Load(h.mem, x) {
      LiveDisjoint(h, g, a, n, b, m);
    }
  }

  lemma SamePagesTook(h: Heap, g: Book, h': Heap, g': Book, p: nat)
    requires Took(h, g, h', g', p)
    ensures PageSet(h', g') == PageSet(h, g)
  {
    hide HeapOk, Addr, Type, Out, PageSet;
    SamePages(h, g, h', g');
  }

  lemma GrownPages(h: Heap, g: Book, h1: Heap, g1: Book, p: nat)
    requires Grown(h, g, h1, g1, p)
    ensures PageSet(h1, g1) == PageSet(h, g) + {Addr(h1, p)}
  {
    assert forall q: nat :: q != p ==> Addr(h1, q) == Addr(h, q);
    hide HeapOk, Addr, Type, Out;
    forall a ensures a in PageSet(h1, g1) <==> a in PageSet(h, g) || a == Addr(h1, p) {
      if a in PageSet(h, g) {
        var q :| q in g.all && a == Addr(h, q);
        assert q in g1.all && a == Addr(h1, q);
      }
      if a in PageSet(h1, g1) {
        var q :| q in g1.all && a == Addr(h1, q);
        assert q == p || (q in g.all && a == Addr(h, q));
      }
      assert p in g1.all;
    }
  }

  lemma SameRefsOut(h: Heap, h': Heap, g: Book)
    requires h'.prs == h.prs
    ensures forall q: nat :: Addr(h', q) == Addr(h, q) && Type(h', q) == Type(h, q)
    ensures forall q: nat, x: nat :: Out(h', g, q, x) <==> Out(h, g, q, x)
  {
    assert forall q: nat :: Pr(h', q) == Pr(h, q);
    hide PageAddr, BlockType, IsOffset;
  }

  // No other block of the page a lies on is handed out.
  ghost predicate LastOnPage(h: Heap, g: Book, a: nat) {
    forall b: nat, m: nat :: Live(h, g, b, m) && b / 4096 == a / 4096 ==> b == a
  }

  lemma PageNumber(page: nat, o: nat)
    requires page % 4096 == 0 && o < 4096
    ensures (page + o) / 4096 * 4096 == page
  {
  }

  // A block is the last of its page exactly if freeing it fills the freelist.
  lemma LastFills(h: Heap, g: Book, h1: Heap, g1: Book, p: nat, o: nat)
    requires Gave(h, g, h1, g1, p, o) && NoIdlePage(h, g)
    ensures Type(h1, p) < 8 && (LastOnPage(h, g, Addr(h, p) + o) <==> |Free(g1, p)| == PerPage(Type(h1, p)))
  {
    hide HeapOk, Addr, Type, Out, Size, PerPage, NoIdlePage, Live;
    var a := Addr(h, p) + o;
    GaveCount(h, g, h1, g1, p, o);
    OutIn(h, g, p, o);
    AddrAligned(h, p);
    PageNumber(Addr(h, p), o);
    if |Free(g1, p)| == PerPage(Type(h1, p)) {
      forall b: nat, m: nat | Live(h, g, b, m) && b / 4096 == a / 4096 ensures b == a {
        OnlyThatOne(h, g, h1, g1, p, o, b, m);
      }
    } else {
      var x := KeptPageInUse(h1, g1, p);
      OutIn(h, g, p, x);
      OutType(h, g, p, x);
      PageNumber(Addr(h, p), x);
      OutLive(h, g, p, x);
    }
  }

  lemma OutLive(h: Heap, g: Book, p: nat, x: nat)
    requires Out(h, g, p, x) && Type(h, p) < 8
    ensures Live(h, g, Addr(h, p) + x, Size(Type(h, p)))
  {
    hide Out, Addr, Type, Size;
    assert BlockIs(h, g, p, x, Addr(h, p) + x, Size(Type(h, p)));
  }

  lemma OnlyThatOne(h: Heap, g: Book, h1: Heap, g1: Book, p: nat, o: nat, b: nat, m: nat)
    requires Gave(h, g, h1, g1, p, o) && Type(h1, p) < 8 && |Free(g1, p)| == PerPage(Type(h1, p))
    requires Live(h, g, b, m) && b / 4096 == (Addr(h, p) + o) / 4096
    ensures b == Addr(h, p) + o
  {
    hide HeapOk, Addr, Type, Out, Size, PerPage;
    var q: nat, x: nat :| BlockIs(h, g, q, x, b, m);
    OutIn(h, g, q, x);
    OutIn(h, g, p, o);
    AddrAligned(h, p);
    AddrAligned(h, q);
    PageNumber(Addr(h, p), o);
    PageNumber(Addr(h, q), x);
    if q != p { PageOnce(h, g, q, p); }
    IdlePage(h1, g1, p, x);
  }

  lemma GaveCount(h: Heap, g: Book, h1: Heap, g1: Book, p: nat, o: nat)
    requires Gave(h, g, h1, g1, p, o) && NoIdlePage(h, g)
    ensures Type(h, p) < 8 && |Free(g1, p)| <= PerPage(Type(h, p))
  {
    hide HeapOk, Addr, Type, PerPage;
    OutIn(h, g, p, o);
  }

  lemma GaveFacts(h: Heap, g: Book, h1: Heap, g1: Book, p: nat, o: nat)
    requires Gave(h, g, h1, g1, p, o)
    ensures HeapOk(h1, g1) && p in g1.all && Type(h1, p) == Type(h, p) && Addr(h1, p) == Addr(h, p)
  {
    hide HeapOk, Addr, Type;
  }

  class KHeap {
    var mem: Mem
    var prs: PageRefs
    var bases: seq<int>
    var allbase: int
    var inuse: seq<bool>
    ghost var book: Book

    ghost function View(): Heap
      reads this
    {
      Heap(mem, prs, bases, allbase, inuse)
    }

    // Between calls.
    ghost predicate Valid()
      reads this
    {
      HeapOk(View(), book) && NoIdlePage(View(), book)
    }

    // Nothing allocated yet.
    constructor ()
      ensures Valid() && book.all == [] && forall a: nat, n: nat :: !Live(View(), book, a, n)
    {
      mem := map[];
      prs := seq<PageRef>(256, _ => PageRef(-1, -1, 0, 0, 0));
      bases := seq(8, _ => -1);
      allbase := -1;
      inuse := seq(256, _ => false);
      book := Book([], seq(8, _ => []), map[]);
    }

    // allocpageref: the first free pageref, or -1.
    method AllocPageRef() returns (p: int)
      requires |inuse| == 256
      modifies this`inuse
      ensures p == -1 ==> inuse == old(inuse) && forall i :: 0 <= i < 256 ==> inuse[i]
      ensures p != -1 ==> 0 <= p < 256 && !old(inuse)[p] && inuse == old(inuse)[p := true]
      ensures p != -1 ==> forall i :: 0 <= i < p ==> old(inuse)[i]
    {
      for i := 0 to 8
        invariant inuse == old(inuse)
        invariant forall k :: 0 <= k < 32 * i ==> inuse[k]
      {
        if FullWord(inuse, i) {
          continue;
        }
        for j := 0 to 32
          invariant inuse == old(inuse)
          invariant forall k :: 32 * i <= k < 32 * i + j ==> inuse[k]
        {
          if !inuse[32 * i + j] {
            inuse := inuse[32 * i + j := true];
            return 32 * i + j;
          }
        }
        assert false;
      }
      return -1;
    }

    // freepageref
    method FreePageRef(p: nat)
      requires p < |inuse| && inuse[p]
      modifies this`inuse
      ensures inuse == old(inuse)[p := false]
    {
      inuse := inuse[p := false];
    }

    // The doalloc path: unlink the first free block of page p.
    method Take(p: nat) returns (ptr: nat)
      requires HeapOk(View(), book) && p in book.all && p < 256 && prs[p].nfree > 0
      modifies this`prs, this`book
      ensures Took(old(View()), old(book), View(), book, p)
      ensures old(Free(book, p)) != [] && ptr == old(Addr(View(), p)) + old(Free(book, p))[0]
    {
      hide HeapOk, Out, Load, PageAddr, BlockType;
      ghost var h, g := View(), book;
      FreeCount(h, g, p);
      TakeStep(h, g, p);
      TakeOut(h, g, p);
      SameLinksViews(h, TakeHeap(h, p), p);
      var r := prs[p];
      var prpage := PageAddr(r);
      ptr := prpage + r.freeOff;
      var next := Load(mem, ptr);
      if next != 0 {
        assert r.nfree - 1 > 0 && next - prpage < 4096;
        prs := prs[p := r.(freeOff := next - prpage, nfree := r.nfree - 1)];
      } else {
        assert r.nfree - 1 == 0;
        prs := prs[p := r.(freeOff := INVALID_OFFSET, nfree := r.nfree - 1)];
      }
      book := WithFree(book, p, Free(book, p)[1..]);
      assert View() == TakeHeap(h, p);
    }

    // Thread the freelist through a fresh page, each block to the one below it.
    method ThreadPage(t: nat, page: nat)
      requires t < 8 && page > 0
      modifies this`mem
      ensures FreeChain(mem, page, t, InitFree(t))
      ensures forall x: nat :: x < page || page + 4096 <= x ==> Load(mem, x) == Load(old(mem), x)
    {
      hide Size, PerPage, InitFree, FreeChain, SlotOff;
      var nfree := PerPage(t);
      mem := mem[page := 0];
      for i := 1 to nfree
        invariant Load(mem, page) == 0
        invariant forall k :: 0 < k < i ==> Load(mem, page + SlotOff(t, k)) == page + SlotOff(t, k - 1)
        invariant forall x: nat :: x < page || page + 4096 <= x ==> Load(mem, x) == Load(old(mem), x)
      {
        var fl, next := page + SlotOff(t, i), page + SlotOff(t, i - 1);
        SlotsDiffer(t, i - 1, i);
        SlotInside(t, i);
        assert fl != next;
        forall k | 0 < k < i ensures page + SlotOff(t, k) != fl {
          SlotsDiffer(t, k, i);
        }
        mem := mem[fl := next];
      }
      InitChain(mem, page, t);
    }

    // The end of subpage_kmalloc: a page from alloc_kpages joins the lists.
    method AddPage(p: nat, t: nat, page: nat, ghost was: seq<bool>)
      requires |inuse| == 256 && p < 256 && |was| == 256 && !was[p] && inuse == was[p := true]
      requires HeapOk(View().(inuse := was), book) && t < 8 && page > 0 && page % 4096 == 0
      requires page !in PageSet(View().(inuse := was), book)
      modifies this`mem, this`prs, this`bases, this`allbase, this`book
      ensures Grown(old(View()).(inuse := was), old(book), View(), book, p)
      ensures Addr(View(), p) == page && Type(View(), p) == t && prs[p].nfree == PerPage(t) && Free(book, p) == InitFree(t)
      ensures |old(book).same| == 8 && book.same == old(book).same[t := [p] + old(book).same[t]] && book.all == [p] + old(book).all
      ensures forall x: nat :: x < page || page + 4096 <= x ==> Load(mem, x) == Load(old(mem), x)
    {
      hide HeapOk, Out, Load, PageAddr, BlockType, FreeChain, InitFree, Size, PerPage;
      ghost var h, g := View().(inuse := was), book;
      ListFacts(h, g);
      ghost var before := mem;
      ThreadPage(t, page);
      AddStep(h, g, p, t, page, mem);
      AddViews(h, p, t, page, mem);
      prs := prs[p := PageRef(bases[t], allbase, page + t, (PerPage(t) - 1) * Size(t), PerPage(t))];
      bases := bases[t := p];
      allbase := p;
      book := AddBook(book, p, t);
      assert View() == AddHeap(h, p, t, page, mem);
    }

    // The search of subpage_kmalloc: a page of type t with a free block, or -1.
    method FindRoom(t: nat) returns (pr: int)
      requires HeapOk(View(), book) && t < 8
      ensures pr != -1 ==> pr in book.all && 0 <= pr < 256 && Type(View(), pr) == t && prs[pr].nfree > 0
      ensures pr != -1 ==> FirstRoom(book, t, pr)
      ensures pr == -1 ==> forall p :: p in book.all && Type(View(), p) == t ==> Free(book, p) == []
    {
      hide HeapOk, PageAddr, BlockType, Type;
      ListFacts(View(), book);
      ghost var s, i := book.same[t], 0;
      ChainOf(View(), book, t);
      pr := bases[t];
      while pr != -1
        invariant 0 <= i <= |s| && pr == if i < |s| then s[i] else -1
        invariant forall k :: 0 <= k < i ==> Free(book, s[k]) == []
        decreases |s| - i
      {
        assert s[i] in s;
        FreeCount(View(), book, s[i]);
        assert SameNode(prs, s, i);
        if prs[pr].nfree > 0 {
          return;
        }
        pr := prs[pr].nextSame;
        i := i + 1;
      }
    }

    // subpage_kmalloc. The page is what alloc_kpages would hand out if asked, 0 if none.
    method Kmalloc(sz: nat, page: nat) returns (ptr: nat, grew: bool, n: nat)
      requires Valid() && sz <= 2048
      requires page != 0 ==> page % 4096 == 0 && page !in PageSet(View(), book)
      modifies this
      ensures Valid()
      ensures ptr == 0 ==> View() == old(View()) && book == old(book) && !grew
      ensures ptr == 0 ==> page == 0 || AllTaken(inuse)
      ensures grew ==> !AllTaken(old(inuse))
      ensures ptr != 0 ==> sz <= n && OneMore(old(View()), old(book), View(), book, ptr, n)
      ensures Untouched(old(View()), old(book), mem, 0)
      ensures grew ==> page != 0 && ptr == page + 4096 - n
      ensures PageSet(View(), book) == old(PageSet(View(), book)) + if grew then {page} else {}
      ensures n == LeastSize(sz)
      ensures ptr == 0 || grew ==> Filled(old(View()), old(book), n)
      ensures ptr != 0 && !grew ==> FirstFree(old(View()), old(book), n, ptr)
    {
      hide Filled, FirstRoom, FirstFree, InitFree, LeastSize, Untouched, PageSet, HeapOk, NoIdlePage, Out, Live, PageAddr, BlockType, Addr, Type, Size, PerPage, Took, Grown, OneMore;
      ghost var h, g := View(), book;
      var t := ClassOf(sz);
      n, grew := Size(t), false;
      LeastIs(sz, t);
      ListFacts(h, g);
      AllUntouched(h, g);
      var pr := FindRoom(t);
      if pr != -1 {
        ptr := Take(pr);
        FirstIsFree(h, g, t, pr);
        TookLive(h, g, View(), book, pr);
        TookFacts(h, g, View(), book, pr);
        PagePositive(h, g, pr);
        SamePagesTook(h, g, View(), book, pr);
        return;
      }
      AllFilled(h, g, t);
      pr := AllocPageRef();
      if pr == -1 {
        return 0, false, n;
      }
      if page == 0 {
        FreePageRef(pr);
        assert inuse == h.inuse;
        return 0, false, n;
      }
      AddPage(pr, t, page, h.inuse);
      ghost var h1, g1 := View(), book;
      GrownFacts(h, g, h1, g1, pr);
      FreshUntouched(h, g, h1.mem, page);
      ptr := Take(pr);
      grew := true;
      InitFirst(t);
      GrewLive(h, g, h1, g1, View(), book, pr);
      TookFacts(h1, g1, View(), book, pr);
      SamePagesTook(h1, g1, View(), book, pr);
      GrownPages(h, g, h1, g1, pr);
    }

    // The search of subpage_kfree: the page ptr lies on, or -1.
    method FindPage(ptr: nat) returns (pr: int)
      requires HeapOk(View(), book)
      ensures pr == -1 ==> NotOurs(View(), book, ptr)
      ensures pr != -1 ==> pr in book.all && 0 <= pr < 256 && Addr(View(), pr) <= ptr < Addr(View(), pr) + 4096
      ensures pr != -1 ==> Type(View(), pr) < 8
    {
      hide HeapOk, PageAddr, BlockType;
      ListFacts(View(), book);
      AllChainOf(View(), book);
      ghost var s, i := book.all, 0;
      pr := allbase;
      while pr != -1
        invariant 0 <= i <= |s| && pr == if i < |s| then s[i] else -1
        invariant forall k :: 0 <= k < i ==> ptr < Addr(View(), s[k]) || Addr(View(), s[k]) + 4096 <= ptr
        decreases |s| - i
      {
        assert s[i] in s;
        assert AllNode(prs, s, i);
        var prpage, blktype := PageAddr(prs[pr]), BlockType(prs[pr]);
        assert blktype < 8;
        if prpage <= ptr < prpage + 4096 {
          return;
        }
        pr := prs[pr].nextAll;
        i := i + 1;
      }
    }

    // fill_deadbeef
    method FillDeadbeef(a: nat, len: nat)
      modifies this`mem
      ensures forall x: nat :: x < a || a + len <= x ==> Load(mem, x) == Load(old(mem), x)
      ensures Deadened(mem, a, len)
    {
      for i := 0 to len / 4
        invariant forall x: nat :: x < a || a + len <= x ==> Load(mem, x) == Load(old(mem), x)
        invariant forall k: nat {:trigger 4 * k} :: k < i ==> Load(mem, a + 4 * k) == DEADBEEF
      {
        mem := mem[a + 4 * i := DEADBEEF];
      }
    }

    // subpage_kfree: clear the block and push it on its page's freelist.
    method Push(p: nat, o: nat)
      requires HeapOk(View(), book) && p < 256 && Out(View(), book, p, o)
      modifies this`mem, this`prs, this`book
      ensures Gave(old(View()), old(book), View(), book, p, o)
      ensures Type(old(View()), p) < 8 && ChangedOnly(old(mem), mem, Addr(old(View()), p) + o, Size(Type(old(View()), p)))
      ensures Deadened(mem, Addr(old(View()), p) + o, Size(Type(old(View()), p)))
    {
      hide Deadened, HeapOk, Out, Load, PageAddr, BlockType, Size, FreeChain;
      ghost var h, g := View(), book;
      OutType(h, g, p, o);
      OutIn(h, g, p, o);
      FirstIs(h, g, p);
      var r := prs[p];
      var prpage := PageAddr(r);
      var t := BlockType(r);
      FillDeadbeef(prpage + o, Size(t));
      ghost var m1 := mem;
      if r.freeOff == INVALID_OFFSET {
        mem := mem[prpage + o := 0];
      } else {
        mem := mem[prpage + o := prpage + r.freeOff];
      }
      StillDead(m1, prpage + o, Size(t), if r.freeOff == INVALID_OFFSET then 0 else prpage + r.freeOff);
      Stored(h.mem, m1, prpage + o, Size(t), if r.freeOff == INVALID_OFFSET then 0 else prpage + r.freeOff);
      prs := prs[p := r.(freeOff := o, nfree := r.nfree + 1)];
      GiveStep(h, g, p, o, mem);
      GiveOut(h, g, p, o, mem);
      SameLinksViews(h, GiveHeap(h, p, o, mem), p);
      book := WithFree(book, p, [o] + Free(book, p));
      assert View() == GiveHeap(h, p, o, mem);
    }

    // remove_lists, first loop: cut p out of its size chain s.
    method UnlinkFromSame(p: nat, t: nat, ghost s: seq<nat>) returns (ghost k: nat)
      requires t < |bases| && SameChain(prs, bases[t], s) && p in s
      modifies this`prs, this`bases
      ensures k < |s| && s[k] == p && (k > 0 ==> s[k - 1] < 256)
      ensures View() == UnlinkSame(old(View()), t, s, k)
    {
      // The link being looked at: bases[t] while prev is -1, then prev's.
      var prev, guy := -1, bases[t];
      k := 0;
      while guy != -1
        invariant 0 <= k <= |s| && guy == (if k < |s| then s[k] else -1)
        invariant prev == (if k > 0 then s[k - 1] else -1) && (k > 0 ==> s[k - 1] < 256)
        invariant forall x :: 0 <= x < k ==> s[x] != p
        invariant View() == old(View())
        decreases |s| - k
      {
        assert SameNode(prs, s, k);
        if guy == p {
          if prev == -1 {
            bases := bases[t := prs[p].nextSame];
          } else {
            prs := prs[prev := prs[prev].(nextSame := prs[p].nextSame)];
          }
          return;
        }
        prev, guy := guy, prs[guy].nextSame;
        k := k + 1;
      }
      assert false;
    }

    // remove_lists, second loop: cut p out of the list of all pages s.
    method UnlinkFromAll(p: nat, ghost s: seq<nat>) returns (ghost k: nat)
      requires AllChain(prs, allbase, s) && p in s
      modifies this`prs, this`allbase
      ensures k < |s| && s[k] == p && (k > 0 ==> s[k - 1] < 256)
      ensures View() == UnlinkAll(old(View()), s, k)
    {
      var prev, guy := -1, allbase;
      k := 0;
      while guy != -1
        invariant 0 <= k <= |s| && guy == (if k < |s| then s[k] else -1)
        invariant prev == (if k > 0 then s[k - 1] else -1) && (k > 0 ==> s[k - 1] < 256)
        invariant forall x :: 0 <= x < k ==> s[x] != p
        invariant View() == old(View())
        decreases |s| - k
      {
        assert AllNode(prs, s, k);
        if guy == p {
          if prev == -1 {
            allbase := prs[p].nextAll;
          } else {
            prs := prs[prev := prs[prev].(nextAll := prs[p].nextAll)];
          }
          return;
        }
        prev, guy := guy, prs[guy].nextAll;
        k := k + 1;
      }
      assert false;
    }

    // The end of subpage_kfree: a page without live blocks leaves the lists.
    method DropPage(p: nat, t: nat)
      requires HeapOk(View(), book) && p in book.all && Type(View(), p) == t && p < 256
      modifies this`prs, this`bases, this`allbase, this`inuse, this`book
      ensures Shrunk(old(View()), old(book), View(), book, p)
    {
      hide HeapOk, Out, SameChain, AllChain, PageAddr, BlockType;
      ghost var h, g := View(), book;
      ListFacts(h, g);
      ChainOf(h, g, t);
      AllChainOf(h, g);
      ghost var k := UnlinkFromSame(p, t, g.same[t]);
      AllChainKept(h, g, View(), t, k);
      ghost var i := UnlinkFromAll(p, g.all);
      DropStepOk(h, g, i, t, k);
      FreePageRef(p);
      book := DropBook(book, i, t, k);
    }

    // subpage_kfree of a block handed out, or of an address on none of the pages.
    // The last block of a page gives the whole page back.
    method Kfree(ptr: nat) returns (found: bool, released: nat)
      requires Valid() && (NotOurs(View(), book, ptr) || !Vacant(View(), book, ptr))
      modifies this
      ensures Valid()
      ensures found <==> !old(NotOurs(View(), book, ptr))
      ensures !found ==> View() == old(View()) && book == old(book) && released == 0
      ensures found ==> OneLess(old(View()), old(book), View(), book, ptr)
      ensures Untouched(old(View()), old(book), mem, ptr)
      ensures released == 0 ==> PageSet(View(), book) == old(PageSet(View(), book))
      ensures released != 0 ==> released in old(PageSet(View(), book)) && released == ptr / 4096 * 4096
      ensures released != 0 ==> PageSet(View(), book) == old(PageSet(View(), book)) - {released}
      ensures released != 0 <==> found && LastOnPage(old(View()), old(book), ptr)
      ensures found && released == 0 ==> FirstOnPage(View(), book, ptr)
      ensures forall n: nat :: found && Live(old(View()), old(book), ptr, n) ==> Deadened(mem, ptr, n)
    {
      hide LastOnPage, FirstOnPage, Deadened, Untouched, PageSet, HeapOk, NoIdlePage, Out, Live, PageAddr, BlockType, Size, PerPage, Gave, Shrunk, OneLess, Vacant;
      ghost var h, g := View(), book;
      released := 0;
      var pr := FindPage(ptr);
      if pr == -1 {
        AllUntouched(h, g);
        return false, 0;
      }
      found := true;
      LiveOnPage(h, g, pr, ptr);
      var prpage, t := PageAddr(prs[pr]), BlockType(prs[pr]);
      var offset := ptr - prpage;
      // "kfree: subpage free of invalid addr"
      assert offset < 4096 && offset % Size(t) == 0 by { OutAligned(h, g, pr, offset); }
      OneSize(h, g, pr, offset);
      Push(pr, offset);
      ghost var h1, g1 := View(), book;
      GaveFacts(h, g, h1, g1, pr, offset);
      FreeCount(h1, g1, pr);
      GaveCount(h, g, h1, g1, pr, offset);
      assert prs[pr].nfree <= PerPage(t);
      LastFills(h, g, h1, g1, pr, offset);
      OthersUntouched(h, g, h1.mem, pr, offset);
      if prs[pr].nfree == PerPage(t) {
        AddrAligned(h, pr);
        PageNumber(prpage, offset);
        DropPage(pr, t);
        released := prpage;
        GaveAndShrunk(h, g, h1, g1, View(), book, pr, offset);
      } else {
        GaveOnly(h, g, h1, g1, pr, offset);
        FreedFirst(h, g, h1, g1, pr, offset);
      }
    }

    // A holder stores a word in its block.
    method Store(a: nat, i: nat, v: nat, ghost n: nat)
      requires Valid() && Live(View(), book, a, n) && i + 4 <= n && i % 4 == 0
      modifies this`mem
      ensures Valid() && mem == old(mem)[a + i := v]
      ensures forall b: nat, m: nat :: Live(View(), book, b, m) <==> Live(old(View()), book, b, m)
      ensures PageSet(View(), book) == old(PageSet(View(), book))
    {
      hide HeapOk, Out, Addr, Type, Size, PerPage, PageSet;
      ghost var h, g := View(), book;
      ghost var p: nat, o: nat :| BlockIs(h, g, p, o, a, n);
      OutType(h, g, p, o);
      StoreStep(h, g, p, o, a + i, v);
      mem := mem[a + i := v];
      assert View() == h.(mem := h.mem[a + i := v]);
      SameRefsOut(h, View(), g);
      SameOutLive(h, g, View(), book);
      SamePages(h, g, View(), book);
    }
  }

  // A block handed out has the size of its page's blocks.
  lemma OneSize(h: Heap, g: Book, p: nat, o: nat)
    requires HeapOk(h, g) && Out(h, g, p, o)
    ensures Type(h, p) < 8
    ensures var a := Addr(h, p) + o; forall n: nat :: Live(h, g, a, n) ==> n == Size(Type(h, p))
  {
    hide HeapOk, Addr, Type, Size, Live;
    var a := Addr(h, p) + o;
    OutType(h, g, p, o);
    OutLive(h, g, p, o);
    forall n: nat | Live(h, g, a, n) ensures n == Size(Type(h, p)) {
      LiveDisjoint(h, g, a, n, a, Size(Type(h, p)));
    }
  }

  lemma FreedFirst(h: Heap, g: Book, h1: Heap, g1: Book, p: nat, o: nat)
    requires Gave(h, g, h1, g1, p, o)
    ensures FirstOnPage(h1, g1, Addr(h, p) + o)
  {
    hide HeapOk, Addr, Type;
    assert p in g1.all && Free(g1, p) != [] && Free(g1, p)[0] == o;
  }

  lemma InitFirst(t: nat)
    requires t < 8
    ensures |InitFree(t)| > 0 && InitFree(t)[0] == 4096 - Size(t)
  {
  }

  lemma FirstIsFree(h: Heap, g: Book, t: nat, p: nat)
    requires t < 8 && FirstRoom(g, t, p)
    ensures Free(g, p) != [] && FirstFree(h, g, Size(t), Addr(h, p) + Free(g, p)[0])
  {
    hide Addr, Size;
    assert FirstRoom(g, t, p);
  }

  lemma AllFilled(h: Heap, g: Book, t: nat)
    requires t < 8 && forall p :: p in g.all && Type(h, p) == t ==> Free(g, p) == []
    ensures Filled(h, g, Size(t))
  {
    hide Type, Size;
    forall p | p in g.all && Type(h, p) < 8 && Size(Type(h, p)) == Size(t) ensures Free(g, p) == [] {
      SizeOnce(Type(h, p), t);
    }
  }

  // blocktype: the smallest size class that holds sz bytes.
  method ClassOf(sz: nat) returns (t: nat)
    requires sz <= 2048
    ensures t < 8 && sz <= Size(t) && forall u :: 0 <= u < t ==> Size(u) < sz
  {
    t := 0;
    while t < 8
      invariant t <= 8 && (forall u :: 0 <= u < t ==> Size(u) < sz)
      invariant t > 0 ==> Size(t - 1) < sz
    {
      if sz <= Size(t) {
        return;
      }
      t := t + 1;
    }
    // "Subpage allocator cannot handle allocation of size"
    assert false;
  }
}
