// The heap as its users see it: blocks with private words. Every run of kmalloc,
// kfree and stores into live blocks is a run of this specification.
module KHeapRun {
  import opened Chains
  import opened KHeapState
  import opened KHeapSteps
  import opened KHeapPages
  import opened KHeaps

  // A block: its size and the words stored in it since it was handed out.
  datatype Block = Block(size: nat, words: map<nat, nat>)

  datatype Op =
    | Malloc(sz: nat, page: nat)
    | Free(a: nat)
    | Store(a: nat, i: nat, v: nat)
    | Fetch(a: nat, i: nat)

  type Blocks = map<nat, Block>

  // The blocks handed out, and the pages alloc_kpages has given the heap.
  datatype State = State(blocks: Blocks, held: set<nat>)

  // Blocks are aligned, non-null and disjoint.
  ghost predicate Separate(s: Blocks) {
    && (forall a :: a in s ==> a > 0 && a % 16 == 0)
    && (forall a, b :: a in s && b in s && a != b ==> a + s[a].size <= b || b + s[b].size <= a)
  }

  // Only what a client may ask for: sizes below a page, its own blocks, words inside them.
  predicate Allowed(s: Blocks, op: Op) {
    match op
    case Malloc(sz, _) => sz <= 2048
    case Free(a) => a in s
    case Store(a, i, _) => a in s && WordIn(s[a], i)
    case Fetch(a, i) => a in s && i in s[a].words
  }

  // The blocks users have on a page.
  function OnPage(s: Blocks, page: nat): (r: set<nat>)
    ensures forall a :: a in r <==> a in s && page <= a < page + 4096
  {
    set a | a in s && page <= a < page + 4096
  }

  function PageOf(a: nat): nat {
    a / 4096 * 4096
  }

  // Every page with a block of n bytes is full of them.
  ghost predicate NoRoom(a: State, n: nat) {
    forall pg, x :: pg in a.held && x in OnPage(a.blocks, pg) && a.blocks[x].size == n ==> |OnPage(a.blocks, pg)| * n == 4096
  }

  // A page the heap can have if it asks: aligned and not held.
  predicate Usable(a: State, page: nat) {
    page != 0 && page % 4096 == 0 && page !in a.held
  }

  // A block of the least size that holds the request, from a page held or, if none has
  // room, from a new one. It fails only if there is none or the pagerefs are used up.
  ghost predicate MallocStep(a: State, sz: nat, page: nat, r: nat, b: State) {
    var n := LeastSize(sz);
    if r == 0 then b == a && NoRoom(a, n) && (!Usable(a, page) || |a.held| == 256)
    else
      && r !in a.blocks && b.blocks == a.blocks[r := Block(n, map[])]
      && (if PageOf(r) in a.held then b.held == a.held
          else NoRoom(a, n) && Usable(a, page) && PageOf(r) == page && b.held == a.held + {page})
  }

  // A page goes back with the last block on it.
  ghost predicate FreeStep(a: State, x: nat, b: State) {
    && b.blocks == a.blocks - {x}
    && b.held == if OnPage(a.blocks, PageOf(x)) == {x} then a.held - {PageOf(x)} else a.held
  }

  ghost predicate AbsStep(a: State, op: Op, r: nat, b: State) {
    match op
    case Malloc(sz, page) => MallocStep(a, sz, page, r, b)
    case Free(x) => FreeStep(a, x, b)
    case Store(x, i, v) =>
      x in a.blocks && b == a.(blocks := a.blocks[x := a.blocks[x].(words := a.blocks[x].words[i := v])])
    case Fetch(x, i) => x in a.blocks && i in a.blocks[x].words && r == a.blocks[x].words[i] && b == a
  }

  // A whole word of the block.
  predicate WordIn(b: Block, i: nat) {
    i + 4 <= b.size && i % 4 == 0
  }

  // ---- The abstraction ----

  ghost predicate Shows(k: KHeap, s: Blocks)
    reads k
  {
    && (forall a: nat, n: nat :: Live(k.View(), k.book, a, n) <==> a in s && s[a].size == n)
    && (forall a, i :: a in s && i in s[a].words ==> WordIn(s[a], i) && Load(k.mem, a + i) == s[a].words[i])
  }

  // Live blocks are separate whenever the allocator is between calls.
  lemma ShownSeparate(k: KHeap, s: Blocks)
    requires k.Valid() && Shows(k, s)
    ensures Separate(s)
  {
    hide HeapOk, Live, NoIdlePage;
    forall a | a in s ensures a > 0 && a % 16 == 0 {
      assert Live(k.View(), k.book, a, s[a].size);
      LiveDisjoint(k.View(), k.book, a, s[a].size, a, s[a].size);
      LivePositive(k.View(), k.book, a, s[a].size);
    }
    forall a, b | a in s && b in s && a != b ensures a + s[a].size <= b || b + s[b].size <= a {
      assert Live(k.View(), k.book, a, s[a].size) && Live(k.View(), k.book, b, s[b].size);
      LiveDisjoint(k.View(), k.book, a, s[a].size, b, s[b].size);
    }
  }

  lemma LivePositive(h: Heap, g: Book, a: nat, n: nat)
    requires HeapOk(h, g) && Live(h, g, a, n)
    ensures a > 0 && !NotOurs(h, g, a)
  {
    hide HeapOk, Live, Addr;
    var q := BlockInside(h, g, a, n);
    PagePositive(h, g, q);
    LiveDisjoint(h, g, a, n, a, n);
  }

  method DoMalloc(k: KHeap, s: Blocks, sz: nat, page: nat) returns (r: nat, grew: bool, s': Blocks)
    requires k.Valid() && Shows(k, s) && sz <= 2048
    requires page != 0 ==> page % 4096 == 0 && page !in PageSet(k.View(), k.book)
    modifies k
    ensures k.Valid() && Shows(k, s')
    ensures MallocStep(State(s, old(PageSet(k.View(), k.book))), sz, page, r, State(s', PageSet(k.View(), k.book)))
    ensures PageSet(k.View(), k.book) == old(PageSet(k.View(), k.book)) + if grew then {page} else {}
    ensures grew ==> page != 0
  {
    hide HeapOk, NoIdlePage, Live, PageSet, Filled, FirstFree, NoRoom, LeastSize, OneMore;
    var n;
    ghost var h, g := k.View(), k.book;
    ghost var held := PageSet(h, g);
    HeldFull(k, held);
    if Filled(h, g, LeastSize(sz)) { NoRoomIs(k, s, LeastSize(sz)); }
    r, grew, n := k.Kmalloc(sz, page);
    s' := if r == 0 then s else s[r := Block(n, map[])];
    if r != 0 {
      MallocShows(h, g, k, s, r, n);
      NewPageOf(page, n);
      if !grew { TakenPage(h, g, n, r); }
    }
  }

  lemma NewPageOf(page: nat, n: nat)
    requires 0 < n <= 4096
    ensures page % 4096 == 0 ==> PageOf(page + 4096 - n) == page
  {
  }

  lemma TakenPage(h: Heap, g: Book, n: nat, ptr: nat)
    requires HeapOk(h, g) && FirstFree(h, g, n, ptr)
    ensures PageOf(ptr) in PageSet(h, g)
  {
    hide HeapOk, Addr, Size;
    var t: nat, p: nat :| t < 8 && Size(t) == n && FirstRoom(g, t, p) && ptr == Addr(h, p) + KHeapState.Free(g, p)[0];
    RoomListed(h, g, t, p);
    FreeInside(h, g, p);
    AddrAligned(h, p);
    PageNumber(Addr(h, p), KHeapState.Free(g, p)[0]);
  }

  lemma RoomListed(h: Heap, g: Book, t: nat, p: nat)
    requires HeapOk(h, g) && FirstRoom(g, t, p)
    ensures p in g.all
  {
    hide AllChain, SameChain, Pages;
  }

  lemma FreeInside(h: Heap, g: Book, p: nat)
    requires HeapOk(h, g) && p in g.all && KHeapState.Free(g, p) != []
    ensures KHeapState.Free(g, p)[0] < 4096
  {
    FreeListOf(h, g, p);
    FreeOffsets(h.mem, h.prs[p], KHeapState.Free(g, p));
  }

  // A page without a free block is full.
  lemma NoRoomIs(k: KHeap, s: Blocks, n: nat)
    requires k.Valid() && Shows(k, s) && Filled(k.View(), k.book, n)
    ensures NoRoom(State(s, PageSet(k.View(), k.book)), n)
  {
    hide HeapOk, NoIdlePage, Shows, Addr, Type, Size, PerPage, OnPage, Live;
    var h, g := k.View(), k.book;
    forall pg, x | pg in PageSet(h, g) && x in OnPage(s, pg) && s[x].size == n ensures |OnPage(s, pg)| * n == 4096 {
      var p :| p in g.all && Addr(h, p) == pg;
      PageCount(k, s, p);
      SizeOnPage(k, s, p, x);
      FreeCount(h, g, p);
      assert Type(h, p) < 8 && Size(Type(h, p)) == n;
    }
  }

  lemma SizeOnPage(k: KHeap, s: Blocks, p: nat, x: nat)
    requires k.Valid() && Shows(k, s) && p in k.book.all && x in OnPage(s, Addr(k.View(), p))
    ensures x in s && Type(k.View(), p) < 8 && s[x].size == Size(Type(k.View(), p))
  {
    hide HeapOk, NoIdlePage, Live, Out, Addr, Type, Size;
    var h, g := k.View(), k.book;
    OnIsOut(k, s, p, x);
    var o := x - Addr(h, p);
    OutIn(h, g, p, o);
    OutLive(h, g, p, o);
  }

  lemma AllListed(h: Heap, g: Book)
    requires HeapOk(h, g) && AllTaken(h.inuse)
    ensures |g.all| == 256
  {
    hide AllChain, SameChain, Pages;
    PageOnOneChain(h, g, 0);
    assert Members(g.all) == Below(256);
    MembersCount(g.all);
  }

  lemma PageSetCount(h: Heap, g: Book)
    requires HeapOk(h, g)
    ensures |PageSet(h, g)| == |g.all|
  {
    PageOnOneChain(h, g, 0);
    PagesOf(h, g);
    hide HeapOk, Pages, Addr;
    forall p, q | p in g.all && q in g.all && p != q ensures Addr(h, p) != Addr(h, q) {
      PageOnce(h, g, p, q);
    }
    AddrCount(h, g.all, PageSet(h, g));
  }

  predicate IsAddr(h: Heap, s: seq<nat>, a: nat) {
    exists p :: p in s && Addr(h, p) == a
  }

  lemma {:induction false} AddrCount(h: Heap, s: seq<nat>, r: set<nat>)
    requires Distinct(s) && forall p, q :: p in s && q in s && p != q ==> Addr(h, p) != Addr(h, q)
    requires forall a: nat :: a in r <==> IsAddr(h, s, a)
    ensures |r| == |s|
  {
    hide Addr;
    if s == [] {
      assert r == {};
    } else {
      var n := |s| - 1;
      var t, last := s[..n], Addr(h, s[n]);
      assert s == t + [s[n]];
      assert IsAddr(h, s, last);
      forall a: nat ensures a in r - {last} <==> IsAddr(h, t, a) {
        if IsAddr(h, t, a) {
          var p :| p in t && Addr(h, p) == a;
          assert p in s && p != s[n];
        }
      }
      AddrCount(h, t, r - {last});
    }
  }

  // With every pageref in use there are 256 pages.
  lemma HeldFull(k: KHeap, held: set<nat>)
    requires k.Valid() && held == PageSet(k.View(), k.book)
    ensures AllTaken(k.inuse) ==> |held| == 256
  {
    hide HeapOk, NoIdlePage, PageSet;
    if AllTaken(k.inuse) {
      AllListed(k.View(), k.book);
      PageSetCount(k.View(), k.book);
    }
  }

  lemma MallocShows(h: Heap, g: Book, k: KHeap, s: Blocks, r: nat, n: nat)
    requires forall a: nat, n: nat :: Live(h, g, a, n) <==> a in s && s[a].size == n
    requires forall a, i :: a in s && i in s[a].words ==> WordIn(s[a], i) && Load(h.mem, a + i) == s[a].words[i]
    requires OneMore(h, g, k.View(), k.book, r, n) && Untouched(h, g, k.mem, 0) && HeapOk(h, g)
    ensures r !in s && Shows(k, s[r := Block(n, map[])])
  {
    hide HeapOk, Live, Load;
    var s' := s[r := Block(n, map[])];
    assert r in s ==> Live(h, g, r, s[r].size);
    forall a, i | a in s' && i in s'[a].words ensures WordIn(s'[a], i) && Load(k.mem, a + i) == s'[a].words[i] {
      assert a in s && Live(h, g, a, s[a].size);
      LivePositive(h, g, a, s[a].size);
    }
  }

  method DoFree(k: KHeap, s: Blocks, ptr: nat) returns (released: nat, s': Blocks)
    requires k.Valid() && Shows(k, s) && ptr in s
    modifies k
    ensures k.Valid() && Shows(k, s')
    ensures FreeStep(State(s, old(PageSet(k.View(), k.book))), ptr, State(s', PageSet(k.View(), k.book)))
    ensures released == 0 ==> PageSet(k.View(), k.book) == old(PageSet(k.View(), k.book))
    ensures released != 0 ==> PageSet(k.View(), k.book) == old(PageSet(k.View(), k.book)) - {released}
  {
    hide HeapOk, NoIdlePage, Live, PageSet, NotOurs, LastOnPage, OnPage, OneLess;
    ghost var h, g := k.View(), k.book;
    assert Live(h, g, ptr, s[ptr].size);
    LivePositive(h, g, ptr, s[ptr].size);
    LastIsOnly(k, s, ptr);
    var found;
    found, released := k.Kfree(ptr);
    s' := s - {ptr};
    FreeShows(h, g, k, s, ptr);
  }

  lemma LastIsOnly(k: KHeap, s: Blocks, ptr: nat)
    requires Shows(k, s) && ptr in s
    ensures LastOnPage(k.View(), k.book, ptr) <==> OnPage(s, PageOf(ptr)) == {ptr}
  {
    hide Live;
    var h, g := k.View(), k.book;
    if LastOnPage(h, g, ptr) {
      forall a ensures a in OnPage(s, PageOf(ptr)) <==> a == ptr {
        if a in OnPage(s, PageOf(ptr)) {
          assert Live(h, g, a, s[a].size);
        }
      }
    }
    if OnPage(s, PageOf(ptr)) == {ptr} {
      forall b: nat, m: nat | Live(h, g, b, m) && b / 4096 == ptr / 4096 ensures b == ptr {
        assert b in OnPage(s, PageOf(ptr));
      }
    }
  }

  lemma FreeShows(h: Heap, g: Book, k: KHeap, s: Blocks, ptr: nat)
    requires forall a: nat, n: nat :: Live(h, g, a, n) <==> a in s && s[a].size == n
    requires forall a, i :: a in s && i in s[a].words ==> WordIn(s[a], i) && Load(h.mem, a + i) == s[a].words[i]
    requires OneLess(h, g, k.View(), k.book, ptr) && Untouched(h, g, k.mem, ptr)
    ensures Shows(k, s - {ptr})
  {
    hide Live, Load;
    var s' := s - {ptr};
    forall a, i | a in s' && i in s'[a].words ensures WordIn(s'[a], i) && Load(k.mem, a + i) == s'[a].words[i] {
      assert a in s && Live(h, g, a, s[a].size);
    }
  }

  method DoStore(k: KHeap, s: Blocks, a: nat, i: nat, v: nat) returns (s': Blocks)
    requires k.Valid() && Shows(k, s) && a in s && WordIn(s[a], i)
    modifies k
    ensures k.Valid() && Shows(k, s') && s' == s[a := s[a].(words := s[a].words[i := v])]
    ensures PageSet(k.View(), k.book) == old(PageSet(k.View(), k.book))
  {
    hide HeapOk, NoIdlePage, Live, PageSet;
    assert Live(k.View(), k.book, a, s[a].size);
    ShownSeparate(k, s);
    k.Store(a, i, v, s[a].size);
    s' := s[a := s[a].(words := s[a].words[i := v])];
  }

  // ---- A page, as its users and as memory know it ----

  // Every block of a page is exactly one of a block some user has, of the page's size,
  // and a block on the freelist that memory links from the page's pageref.
  lemma PagePartition(k: KHeap, s: Blocks, p: nat, o: nat)
    requires k.Valid() && Shows(k, s) && p in k.book.all && IsOffset(Type(k.View(), p), o)
    ensures var h := k.View(); var a := Addr(h, p) + o;
            (a in s && s[a].size == Size(Type(h, p))) <==> o !in FreeInMemory(h, p)
  {
    hide HeapOk, NoIdlePage, FreeInMemory, Live;
    var h, g := k.View(), k.book;
    var a, n := Addr(h, p) + o, Size(Type(h, p));
    FreeIsInMemory(h, g, p);
    if o !in KHeapState.Free(g, p) {
      OutLive(h, g, p, o);
    }
    if Live(h, g, a, n) {
      LiveIsOut(h, g, p, o, n);
    }
  }

  lemma LiveIsOut(h: Heap, g: Book, p: nat, o: nat, n: nat)
    requires HeapOk(h, g) && p in g.all && IsOffset(Type(h, p), o) && Live(h, g, Addr(h, p) + o, n)
    ensures Out(h, g, p, o)
  {
    hide HeapOk, Addr, Type, Size;
    var q: nat, x: nat :| BlockIs(h, g, q, x, Addr(h, p) + o, n);
    PagesOf(h, g);
    SameBlock(h, g, p, o, q, x);
  }

  // On every page the blocks in use and nfree add up to the blocks of the page, and at
  // least one is in use.
  lemma PageCount(k: KHeap, s: Blocks, p: nat)
    requires k.Valid() && Shows(k, s) && p in k.book.all
    ensures p < 256 && Type(k.View(), p) < 8
    ensures |OnPage(s, Addr(k.View(), p))| + k.prs[p].nfree == PerPage(Type(k.View(), p))
    ensures OnPage(s, Addr(k.View(), p)) != {}
  {
    hide HeapOk, NoIdlePage, Shows, Live, Addr, Type, PerPage, OutSet, OnPage;
    var h, g := k.View(), k.book;
    OutCount(h, g, p);
    InUse(h, g, p);
    var page := Addr(h, p);
    forall o: nat ensures o in OutSet(h, g, p) <==> page + o in OnPage(s, page) {
      if o in OutSet(h, g, p) { OutIsOn(k, s, p, o); }
      if page + o in OnPage(s, page) { OnIsOut(k, s, p, page + o); }
    }
    forall a | a in OnPage(s, page) ensures a >= page {
      OnIsOut(k, s, p, a);
    }
    ShiftCount(OutSet(h, g, p), OnPage(s, page), page);
  }

  lemma OutIsOn(k: KHeap, s: Blocks, p: nat, o: nat)
    requires k.Valid() && Shows(k, s) && p in k.book.all && o in OutSet(k.View(), k.book, p)
    ensures Addr(k.View(), p) + o in OnPage(s, Addr(k.View(), p))
  {
    hide HeapOk, NoIdlePage, Live, Out, Addr, Type, Size;
    var h, g := k.View(), k.book;
    OutIn(h, g, p, o);
    OutLive(h, g, p, o);
  }

  lemma OnIsOut(k: KHeap, s: Blocks, p: nat, a: nat)
    requires k.Valid() && Shows(k, s) && p in k.book.all && a in OnPage(s, Addr(k.View(), p))
    ensures a >= Addr(k.View(), p) && a - Addr(k.View(), p) in OutSet(k.View(), k.book, p)
  {
    hide HeapOk, NoIdlePage, Live, Out, Addr, Type, Size;
    var h, g := k.View(), k.book;
    assert Live(h, g, a, s[a].size);
    LiveHere(h, g, p, a, s[a].size);
    OutIn(h, g, p, a - Addr(h, p));
  }

  lemma InUse(h: Heap, g: Book, p: nat)
    requires HeapOk(h, g) && NoIdlePage(h, g) && p in g.all
    ensures p < 256 && Type(h, p) < 8 && h.prs[p].nfree < PerPage(Type(h, p))
  {
    hide HeapOk, PerPage;
    FreeCount(h, g, p);
  }

  lemma LiveHere(h: Heap, g: Book, p: nat, a: nat, n: nat)
    requires HeapOk(h, g) && p in g.all && Live(h, g, a, n) && Addr(h, p) <= a < Addr(h, p) + 4096
    ensures Out(h, g, p, a - Addr(h, p))
  {
    hide HeapOk, Addr, Type, Size;
    var q: nat, x: nat :| BlockIs(h, g, q, x, a, n);
    OutIn(h, g, q, x);
    PagesOf(h, g);
    SameBlock(h, g, p, a - Addr(h, p), q, x);
  }

  // ---- Every run ----

  // A call a client may not make is not made.
  ghost predicate RunStep(a: State, op: Op, r: nat, b: State) {
    if Allowed(a.blocks, op) then AbsStep(a, op, r, b) else b == a
  }

  ghost predicate Tracks(k: KHeap, a: State)
    reads k
  {
    k.Valid() && Shows(k, a.blocks) && a.held == PageSet(k.View(), k.book)
  }

  // One call. alloc_kpages hands out only pages that are aligned and not held, or none.
  method Perform(k: KHeap, a: State, op: Op) returns (r: nat, b: State)
    requires Tracks(k, a)
    modifies k
    ensures Tracks(k, b) && RunStep(a, op, r, b)
  {
    hide PageSet, Shows, KHeap.Valid, NoRoom, OnPage;
    r, b := 0, a;
    if !Allowed(a.blocks, op) {
      return;
    }
    var s';
    match op {
      case Malloc(sz, page) =>
        var grew;
        var given := if Usable(a, page) then page else 0;
        r, grew, s' := DoMalloc(k, a.blocks, sz, given);
        b := State(s', if grew then a.held + {given} else a.held);
      case Free(x) =>
        var released;
        released, s' := DoFree(k, a.blocks, x);
        b := State(s', if released != 0 then a.held - {released} else a.held);
      case Store(x, i, v) =>
        s' := DoStore(k, a.blocks, x, i, v);
        b := State(s', a.held);
      case Fetch(x, i) =>
        r := Load(k.mem, x + i);
        FetchShown(k, a.blocks, x, i);
    }
  }

  lemma FetchShown(k: KHeap, s: Blocks, a: nat, i: nat)
    requires Shows(k, s) && a in s && i in s[a].words
    ensures Load(k.mem, a + i) == s[a].words[i]
  {
  }

  ghost predicate IsRun(trace: seq<State>, ops: seq<Op>, replies: seq<nat>) {
    && |trace| == |ops| + 1 && |replies| == |ops|
    && (forall i :: 0 <= i < |ops| ==> RunStep(trace[i], ops[i], replies[i], trace[i + 1]))
  }

  lemma RunExtended(trace: seq<State>, ops: seq<Op>, replies: seq<nat>, op: Op, r: nat, b: State)
    requires IsRun(trace, ops, replies) && RunStep(trace[|ops|], op, r, b)
    ensures IsRun(trace + [b], ops + [op], replies + [r])
  {
    hide RunStep;
  }

  // Every sequence of calls on a fresh heap is a run of the specification, and all along it
  // the blocks are aligned and pairwise disjoint, each on a page held.
  method Run(ops: seq<Op>) returns (replies: seq<nat>, trace: seq<State>)
    ensures IsRun(trace, ops, replies) && trace[0] == State(map[], {})
    ensures forall i :: 0 <= i < |trace| ==> Separate(trace[i].blocks) && Paged(trace[i])
  {
    hide RunStep, Tracks, Separate, Paged;
    var k := new KHeap();
    var a := State(map[], {});
    FreshShown(k);
    TracksPaged(k, a);
    replies, trace := [], [a];
    for i := 0 to |ops|
      invariant fresh(k) && Tracks(k, a)
      invariant IsRun(trace, ops[..i], replies) && trace[0] == State(map[], {}) && trace[i] == a
      invariant forall x :: 0 <= x < |trace| ==> Separate(trace[x].blocks) && Paged(trace[x])
    {
      var r, b := Perform(k, a, ops[i]);
      TracksPaged(k, b);
      RunExtended(trace, ops[..i], replies, ops[i], r, b);
      assert ops[..i] + [ops[i]] == ops[..i + 1];
      a := b;
      replies, trace := replies + [r], trace + [a];
    }
    assert ops[..|ops|] == ops;
  }

  // Every block lies on a page held, and every page held has a block.
  ghost predicate Paged(a: State) {
    && (forall x :: x in a.blocks ==> PageOf(x) in a.held)
    && (forall pg :: pg in a.held ==> pg % 4096 == 0 && OnPage(a.blocks, pg) != {})
  }

  lemma TracksPaged(k: KHeap, a: State)
    requires Tracks(k, a)
    ensures Separate(a.blocks) && Paged(a)
  {
    hide HeapOk, NoIdlePage, Shows, Live, Addr, Type, Size, OnPage, Separate;
    var h, g := k.View(), k.book;
    ShownSeparate(k, a.blocks);
    forall x | x in a.blocks ensures PageOf(x) in a.held {
      BlockPaged(k, a.blocks, x);
    }
    forall pg | pg in a.held ensures pg % 4096 == 0 && OnPage(a.blocks, pg) != {} {
      var p :| p in g.all && Addr(h, p) == pg;
      AddrAligned(h, p);
      PageCount(k, a.blocks, p);
    }
  }

  lemma BlockPaged(k: KHeap, s: Blocks, x: nat)
    requires k.Valid() && Shows(k, s) && x in s
    ensures PageOf(x) in PageSet(k.View(), k.book)
  {
    hide HeapOk, NoIdlePage, Addr, Type, Size;
    var h, g := k.View(), k.book;
    assert Live(h, g, x, s[x].size);
    var p: nat, o: nat :| BlockIs(h, g, p, o, x, s[x].size);
    OutIn(h, g, p, o);
    AddrAligned(h, p);
    PageNumber(Addr(h, p), o);
  }

  lemma FreshShown(k: KHeap)
    requires k.Valid() && k.book.all == [] && forall a: nat, n: nat :: !Live(k.View(), k.book, a, n)
    ensures Tracks(k, State(map[], {}))
  {
    hide Live;
  }
}
