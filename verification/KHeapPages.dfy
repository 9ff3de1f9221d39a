// Putting a page on the allocator's lists and taking it off again.
module KHeapPages {
  import opened Chains
  import opened KHeapState
  import opened KHeapSteps

  // ---- A new page ----

  // The freelist of a fresh page of type t: the last block first.
  function InitFree(t: nat): (f: seq<nat>)
    requires t < 8
    ensures |f| == PerPage(t) && forall i :: 0 <= i < |f| ==> f[i] == (PerPage(t) - 1 - i) * Size(t)
  {
    seq(PerPage(t), i requires 0 <= i < PerPage(t) => (PerPage(t) - 1 - i) * Size(t))
  }

  function NewRef(h: Heap, t: nat, page: nat): PageRef
    requires t < 8 && |h.bases| == 8
  {
    PageRef(h.bases[t], h.allbase, page + t, (PerPage(t) - 1) * Size(t), PerPage(t))
  }

  function AddHeap(h: Heap, p: nat, t: nat, page: nat, mem': Mem): Heap
    requires p < 256 && t < 8 && |h.bases| == 8 && |h.inuse| == 256
  {
    Heap(mem', h.prs[p := NewRef(h, t, page)], h.bases[t := p], p, h.inuse[p := true])
  }

  function AddBook(g: Book, p: nat, t: nat): Book
    requires t < 8 && |g.same| == 8
  {
    Book([p] + g.all, g.same[t := [p] + g.same[t]], g.free[p := InitFree(t)])
  }

  lemma MulOffset(t: nat, k: nat)
    requires t < 8 && k < PerPage(t)
    ensures IsOffset(t, k * Size(t))
  {
    if t == 0 {} else if t == 1 {} else if t == 2 {} else if t == 3 {}
    else if t == 4 {} else if t == 5 {} else if t == 6 {} else {}
  }

  // The offset of block k.
  function SlotOff(t: nat, k: nat): nat
    requires t < 8
  {
    k * Size(t)
  }

  lemma SlotsDiffer(t: nat, i: nat, k: nat)
    requires t < 8 && i < k
    ensures SlotOff(t, i) < SlotOff(t, k)
  {
    hide Size;
    MulDistinct(t, i, k);
  }

  lemma SlotInside(t: nat, k: nat)
    requires t < 8 && 0 < k < PerPage(t)
    ensures 0 < SlotOff(t, k) < 4096
  {
    hide Size, PerPage;
    MulDistinct(t, 0, k);
    MulDistinct(t, k, PerPage(t));
  }

  lemma MulDistinct(t: nat, i: nat, k: nat)
    requires t < 8 && i < k
    ensures i * Size(t) < k * Size(t)
  {
  }

  lemma InitChain(mem: Mem, page: nat, t: nat)
    requires t < 8 && page > 0
    requires Load(mem, page) == 0
    requires forall k :: 0 < k < PerPage(t) ==> Load(mem, page + SlotOff(t, k)) == page + SlotOff(t, k - 1)
    ensures FreeChain(mem, page, t, InitFree(t))
  {
    hide Load, Size, PerPage, IsOffset, FreeNode, InitFree, SlotOff;
    var f := InitFree(t);
    InitOffsets(t);
    forall i | 0 <= i < |f| ensures FreeNode(mem, page, f, i) {
      InitNode(mem, page, t, i);
    }
  }

  lemma InitOffsets(t: nat)
    requires t < 8
    ensures Distinct(InitFree(t)) && forall i :: 0 <= i < |InitFree(t)| ==> IsOffset(t, InitFree(t)[i])
  {
    hide Size, PerPage, IsOffset;
    var f, n := InitFree(t), PerPage(t);
    forall i | 0 <= i < n ensures IsOffset(t, f[i]) {
      MulOffset(t, n - 1 - i);
    }
    forall i, k | 0 <= i < k < n ensures f[i] != f[k] {
      MulDistinct(t, n - 1 - k, n - 1 - i);
    }
  }

  lemma InitNode(mem: Mem, page: nat, t: nat, i: nat)
    requires t < 8 && i < PerPage(t) && Load(mem, page) == 0
    requires i < PerPage(t) - 1 ==> Load(mem, page + SlotOff(t, PerPage(t) - 1 - i)) == page + SlotOff(t, PerPage(t) - 2 - i)
    ensures i < |InitFree(t)| && FreeNode(mem, page, InitFree(t), i)
  {
    hide Load, Size, PerPage;
    if i == PerPage(t) - 1 { assert (PerPage(t) - 1 - i) * Size(t) == 0; }
  }

  lemma NewRefViews(h: Heap, t: nat, page: nat)
    requires t < 8 && |h.bases| == 8 && page % 4096 == 0
    ensures PageAddr(NewRef(h, t, page)) == page && BlockType(NewRef(h, t, page)) == t
  {
    assert (page + t) % 4096 == t;
  }

  // Pushing p on the front of a list.
  lemma AllPushed(prs: PageRefs, prs': PageRefs, head: int, s: seq<nat>, p: nat)
    requires AllChain(prs, head, s) && p < 256 && p !in s
    requires prs'[p].nextAll == head && forall q: nat :: q < 256 && q != p ==> prs'[q].nextAll == prs[q].nextAll
    ensures AllChain(prs', p, [p] + s)
  {
    var s' := [p] + s;
    forall i | 0 <= i < |s'| ensures AllNode(prs', s', i) {
      if i > 0 { assert AllNode(prs, s, i - 1) && s[i - 1] in s; }
    }
  }

  lemma SamePushed(prs: PageRefs, prs': PageRefs, head: int, s: seq<nat>, p: nat)
    requires SameChain(prs, head, s) && p < 256 && p !in s
    requires prs'[p].nextSame == head && forall q: nat :: q < 256 && q != p ==> prs'[q].nextSame == prs[q].nextSame
    ensures SameChain(prs', p, [p] + s)
  {
    var s' := [p] + s;
    forall i | 0 <= i < |s'| ensures SameNode(prs', s', i) {
      if i > 0 { assert SameNode(prs, s, i - 1) && s[i - 1] in s; }
    }
  }

  lemma SameKept(prs: PageRefs, prs': PageRefs, head: int, s: seq<nat>)
    requires SameChain(prs, head, s)
    requires forall q :: q in s && q < 256 ==> prs'[q].nextSame == prs[q].nextSame
    ensures SameChain(prs', head, s)
  {
    forall i | 0 <= i < |s| ensures SameNode(prs', s, i) {
      assert SameNode(prs, s, i) && s[i] in s;
    }
  }

  lemma AddViews(h: Heap, p: nat, t: nat, page: nat, mem': Mem)
    requires p < 256 && t < 8 && |h.bases| == 8 && |h.inuse| == 256 && page % 4096 == 0
    ensures var h' := AddHeap(h, p, t, page, mem');
            && Type(h', p) == t && Addr(h', p) == page
            && (forall q: nat :: q != p ==> Pr(h', q) == Pr(h, q))
  {
    NewRefViews(h, t, page);
  }

  lemma AddLists(h: Heap, g: Book, p: nat, t: nat, page: nat, mem': Mem)
    requires Lists(h, g) && p < 256 && !h.inuse[p] && t < 8 && page % 4096 == 0
    ensures Lists(AddHeap(h, p, t, page, mem'), AddBook(g, p, t))
  {
    var h', g' := AddHeap(h, p, t, page, mem'), AddBook(g, p, t);
    assert p !in g.all && forall u :: 0 <= u < 8 ==> p !in g.same[u];
    AddViews(h, p, t, page, mem');
    AllPushed(h.prs, h'.prs, h.allbase, g.all, p);
    SamePushed(h.prs, h'.prs, h.bases[t], g.same[t], p);
    forall u | 0 <= u < 8 && u != t ensures SameChain(h'.prs, h'.bases[u], g'.same[u]) {
      SameKept(h.prs, h'.prs, h.bases[u], g.same[u]);
    }
    hide AllChain, SameChain, PageAddr, BlockType, InitFree;
    assert g'.same[t] == [p] + g.same[t];
  }

  // A page joins the lists, all of its blocks free.
  lemma AddStep(h: Heap, g: Book, p: nat, t: nat, page: nat, mem': Mem)
    requires HeapOk(h, g) && p < 256 && !h.inuse[p] && t < 8 && page > 0 && page % 4096 == 0
    requires forall q :: q in g.all ==> Addr(h, q) != page
    requires forall x: nat :: x < page || page + 4096 <= x ==> Load(mem', x) == Load(h.mem, x)
    requires FreeChain(mem', page, t, InitFree(t))
    ensures HeapOk(AddHeap(h, p, t, page, mem'), AddBook(g, p, t))
    ensures forall q: nat, x: nat :: Out(AddHeap(h, p, t, page, mem'), AddBook(g, p, t), q, x) <==> Out(h, g, q, x)
  {
    hide Load, FreeList, Lists, PageAddr, BlockType, InitFree, FreeChain;
    NotListed(h, g, p);
    var h', g' := AddHeap(h, p, t, page, mem'), AddBook(g, p, t);
    AddLists(h, g, p, t, page, mem');
    AddViews(h, p, t, page, mem');
    NewFreeList(h, p, t, page, mem');
    forall q | q in g.all ensures q != p && FreeList(mem', Pr(h, q), Free(g, q)) {
      AddOther(h, g, mem', page, q);
    }
    AllOffsetsFree(t);
  }

  lemma NotListed(h: Heap, g: Book, p: nat)
    requires Lists(h, g) && p < 256 && !h.inuse[p]
    ensures p !in g.all && |h.bases| == 8 && |g.same| == 8 && |h.inuse| == 256
  {
    hide AllChain, SameChain;
  }

  lemma NewFreeList(h: Heap, p: nat, t: nat, page: nat, mem': Mem)
    requires p < 256 && t < 8 && |h.bases| == 8 && |h.inuse| == 256 && page % 4096 == 0
    requires FreeChain(mem', page, t, InitFree(t))
    ensures FreeList(mem', Pr(AddHeap(h, p, t, page, mem'), p), InitFree(t))
  {
    hide FreeChain;
    NewRefViews(h, t, page);
  }

  lemma AddOther(h: Heap, g: Book, mem': Mem, page: nat, q: nat)
    requires Pages(h, g) && q in g.all && Addr(h, q) != page && page % 4096 == 0
    requires forall x: nat :: x < page || page + 4096 <= x ==> Load(mem', x) == Load(h.mem, x)
    ensures FreeList(mem', Pr(h, q), Free(g, q))
  {
    assert FreeList(h.mem, Pr(h, q), Free(g, q)) by { hide FreeList; }
    hide Load, FreeChain;
    OtherChainKept(h.mem, mem', Addr(h, q), Type(h, q), Free(g, q), page, 4096, page);
  }

  // Every block offset of the type is on the initial freelist.
  lemma AllOffsetsFree(t: nat)
    requires t < 8
    ensures forall o: nat :: IsOffset(t, o) ==> o in InitFree(t)
  {
    forall o: nat | IsOffset(t, o) ensures o in InitFree(t) {
      var k := o / Size(t);
      OffsetIndex(t, o);
      assert InitFree(t)[PerPage(t) - 1 - k] == o;
    }
  }

  lemma OffsetIndex(t: nat, o: nat)
    requires IsOffset(t, o)
    ensures o / Size(t) < PerPage(t) && o == (o / Size(t)) * Size(t)
  {
    if t == 0 {} else if t == 1 {} else if t == 2 {} else if t == 3 {}
    else if t == 4 {} else if t == 5 {} else if t == 6 {} else {}
  }

  // ---- Counting ----

  function Offsets(t: nat): (s: set<nat>)
    requires t < 8
    ensures forall o :: o in s <==> IsOffset(t, o)
  {
    AllOffsetsFree(t);
    AllFreeOffsets(t);
    Members(InitFree(t))
  }

  lemma AllFreeOffsets(t: nat)
    requires t < 8
    ensures forall o :: o in InitFree(t) ==> IsOffset(t, o)
  {
    hide Size, PerPage, IsOffset;
    InitOffsets(t);
  }

  lemma OffsetCount(t: nat)
    requires t < 8
    ensures |Offsets(t)| == PerPage(t)
  {
    hide Size, PerPage, IsOffset;
    InitOffsets(t);
    MembersCount(InitFree(t));
  }

  // The blocks of page p handed out, by offset.
  ghost function OutSet(h: Heap, g: Book, p: nat): (s: set<nat>)
    ensures forall o :: o in s <==> Out(h, g, p, o)
  {
    if p in g.all && Type(h, p) < 8 then Offsets(Type(h, p)) - Members(Free(g, p)) else {}
  }

  // As many blocks are handed out as the page has and nfree does not count.
  lemma OutCount(h: Heap, g: Book, p: nat)
    requires HeapOk(h, g) && p in g.all
    ensures p < 256 && Type(h, p) < 8 && |OutSet(h, g, p)| + h.prs[p].nfree == PerPage(Type(h, p))
  {
    FreeListOf(h, g, p);
    var t, f := Type(h, p), Free(g, p);
    FreeOffsets(h.mem, h.prs[p], f);
    hide HeapOk, Size, PerPage, IsOffset, FreeList, Out, Members, Offsets;
    OffsetCount(t);
    MembersCount(f);
    var all, free := Offsets(t), Members(f);
    assert free <= all;
    assert OutSet(h, g, p) == all - free;
    assert all == (all - free) + free;
  }

  lemma FreeOffsets(mem: Mem, r: PageRef, f: seq<nat>)
    requires FreeList(mem, r, f)
    ensures BlockType(r) < 8 && r.nfree == |f| && Distinct(f) && forall o :: o in f ==> IsOffset(BlockType(r), o)
  {
    hide FreeNode, IsOffset;
  }

  // A page that is kept has a block in use.
  lemma KeptPageInUse(h: Heap, g: Book, p: nat) returns (o: nat)
    requires HeapOk(h, g) && p in g.all && Type(h, p) < 8 && |Free(g, p)| < PerPage(Type(h, p))
    ensures Out(h, g, p, o)
  {
    FreeListOf(h, g, p);
    OutCount(h, g, p);
    hide HeapOk, Out, FreeList, PerPage;
    assert OutSet(h, g, p) != {};
    o :| o in OutSet(h, g, p);
  }

  // ---- Dropping a page: remove_lists and freepageref ----

  // The link before position i skips it, or the head does.
  lemma AllUnlinked(prs: PageRefs, prs': PageRefs, head: int, head': int, s: seq<nat>, i: nat)
    requires AllChain(prs, head, s) && i < |s|
    requires forall q: nat :: q < 256 ==>
               prs'[q].nextAll == if i > 0 && q == s[i - 1] then NextIn(s, i) else prs[q].nextAll
    requires head' == if i == 0 then NextIn(s, 0) else head
    ensures AllChain(prs', head', RemoveAt(s, i))
  {
    RemoveAtMembers(s, i);
    var r := RemoveAt(s, i);
    forall k | 0 <= k < |r| ensures AllNode(prs', r, k) {
      if k < i { assert AllNode(prs, s, k); } else { assert AllNode(prs, s, k + 1); }
    }
  }

  lemma SameUnlinked(prs: PageRefs, prs': PageRefs, head: int, head': int, s: seq<nat>, i: nat)
    requires SameChain(prs, head, s) && i < |s|
    requires forall q: nat :: q < 256 ==>
               prs'[q].nextSame == if i > 0 && q == s[i - 1] then NextIn(s, i) else prs[q].nextSame
    requires head' == if i == 0 then NextIn(s, 0) else head
    ensures SameChain(prs', head', RemoveAt(s, i))
  {
    RemoveAtMembers(s, i);
    var r := RemoveAt(s, i);
    forall k | 0 <= k < |r| ensures SameNode(prs', r, k) {
      if k < i { assert SameNode(prs, s, k); } else { assert SameNode(prs, s, k + 1); }
    }
  }

  // h with position i cut out of the list of all pages.
  function UnlinkAll(h: Heap, s: seq<nat>, i: nat): Heap
    requires i < |s| && (i > 0 ==> s[i - 1] < 256)
  {
    if i == 0 then h.(allbase := NextIn(s, 0))
    else h.(prs := h.prs[s[i - 1] := h.prs[s[i - 1]].(nextAll := NextIn(s, i))])
  }

  function UnlinkSame(h: Heap, t: nat, s: seq<nat>, i: nat): Heap
    requires t < |h.bases| && i < |s| && (i > 0 ==> s[i - 1] < 256)
  {
    if i == 0 then h.(bases := h.bases[t := NextIn(s, 0)])
    else h.(prs := h.prs[s[i - 1] := h.prs[s[i - 1]].(nextSame := NextIn(s, i))])
  }

  // Same contents of every pageref apart from the links.
  ghost predicate SameRefs(h: Heap, h': Heap) {
    forall q: nat :: q < 256 ==>
      && h'.prs[q].pab == h.prs[q].pab && h'.prs[q].freeOff == h.prs[q].freeOff && h'.prs[q].nfree == h.prs[q].nfree
  }

  lemma SameRefsViews(h: Heap, h': Heap)
    requires SameRefs(h, h')
    ensures forall q: nat :: Type(h', q) == Type(h, q) && Addr(h', q) == Addr(h, q)
    ensures forall q: nat, mem: Mem, f: seq<nat> :: q < 256 && FreeList(mem, h.prs[q], f) ==> FreeList(mem, h'.prs[q], f)
  {
    hide FreeChain;
  }

  function DropBook(g: Book, i: nat, t: nat, k: nat): Book
    requires i < |g.all| && t < |g.same| && k < |g.same[t]|
  {
    Book(RemoveAt(g.all, i), g.same[t := RemoveAt(g.same[t], k)], g.free - {g.all[i]})
  }

  // The heap once both lists skip page all[i] == same[t][k] and its pageref is free.
  function DropHeap(h: Heap, g: Book, i: nat, t: nat, k: nat): Heap
    requires Lists(h, g) && i < |g.all| && t < 8 && k < |g.same[t]| && g.all[i] == g.same[t][k]
  {
    assert i > 0 ==> AllNode(h.prs, g.all, i - 1);
    assert SameChain(h.prs, h.bases[t], g.same[t]);
    assert k > 0 ==> SameNode(h.prs, g.same[t], k - 1);
    assert AllNode(h.prs, g.all, i);
    var h1 := UnlinkAll(UnlinkSame(h, t, g.same[t], k), g.all, i);
    h1.(inuse := h1.inuse[g.all[i] := false])
  }

  lemma DropChains(h: Heap, g: Book, i: nat, t: nat, k: nat)
    requires Lists(h, g) && i < |g.all| && t < 8 && k < |g.same[t]| && g.all[i] == g.same[t][k]
    ensures var h' := DropHeap(h, g, i, t, k);
            && SameRefs(h, h') && AllChain(h'.prs, h'.allbase, RemoveAt(g.all, i))
            && |h'.bases| == 8 && SameChain(h'.prs, h'.bases[t], RemoveAt(g.same[t], k))
            && (forall u :: 0 <= u < 8 && u != t ==> SameChain(h'.prs, h'.bases[u], g.same[u]))
  {
    var h' := DropHeap(h, g, i, t, k);
    assert SameChain(h.prs, h.bases[t], g.same[t]);
    assert i > 0 ==> AllNode(h.prs, g.all, i - 1);
    assert k > 0 ==> SameNode(h.prs, g.same[t], k - 1);
    AllUnlinked(h.prs, h'.prs, h.allbase, h'.allbase, g.all, i);
    SameUnlinked(h.prs, h'.prs, h.bases[t], h'.bases[t], g.same[t], k);
    forall u | 0 <= u < 8 && u != t ensures SameChain(h'.prs, h'.bases[u], g.same[u]) {
      OtherChain(h, g, i, t, k, u);
    }
  }

  lemma OtherChain(h: Heap, g: Book, i: nat, t: nat, k: nat, u: nat)
    requires Lists(h, g) && i < |g.all| && t < 8 && k < |g.same[t]| && g.all[i] == g.same[t][k] && u < 8 && u != t
    ensures var h' := DropHeap(h, g, i, t, k); |h'.bases| == 8 && SameChain(h'.prs, h'.bases[u], g.same[u])
  {
    var h' := DropHeap(h, g, i, t, k);
    assert SameChain(h.prs, h.bases[u], g.same[u]);
    forall q | q in g.same[u] && q < 256 ensures h'.prs[q].nextSame == h.prs[q].nextSame {
      if k > 0 { assert g.same[t][k - 1] in g.same[t] && Type(h, g.same[t][k - 1]) == t && Type(h, q) == u; }
    }
    SameKept(h.prs, h'.prs, h.bases[u], g.same[u]);
  }

  lemma DropLists(h: Heap, g: Book, i: nat, t: nat, k: nat)
    requires Lists(h, g) && i < |g.all| && t < 8 && k < |g.same[t]| && g.all[i] == g.same[t][k]
    ensures SameRefs(h, DropHeap(h, g, i, t, k))
    ensures Lists(DropHeap(h, g, i, t, k), DropBook(g, i, t, k))
  {
    var h', g' := DropHeap(h, g, i, t, k), DropBook(g, i, t, k);
    assert g.all[i] in g.all && g.all[i] < 256;
    assert h'.inuse == h.inuse[g.all[i] := false] && |h'.bases| == 8;
    DropChains(h, g, i, t, k);
    SameRefsViews(h, h');
    DropMembers(h, g, i, t, k);
    hide AllChain, SameChain, Type, RemoveAt, DropHeap, Lists, DropBook;
    SameLists(h, g, h', g', i, t, k);
  }

  // Who is on the lists once page all[i] is off them.
  lemma DropMembers(h: Heap, g: Book, i: nat, t: nat, k: nat)
    requires Lists(h, g) && i < |g.all| && t < 8 && k < |g.same[t]| && g.all[i] == g.same[t][k]
    ensures var g' := DropBook(g, i, t, k); var p := g.all[i];
            && |g'.same| == 8 && (forall q :: q in g'.all <==> q in g.all && q != p)
            && (forall u, q :: 0 <= u < 8 ==> (q in g'.same[u] <==> q in g.same[u] && q != p))
  {
    var p := g.all[i];
    RemoveAtMembers(g.all, i);
    assert SameChain(h.prs, h.bases[t], g.same[t]);
    RemoveAtMembers(g.same[t], k);
    assert p in g.same[t] && Type(h, p) == t;
    hide AllChain, SameChain, Type, RemoveAt;
    forall u, q | 0 <= u < 8 && u != t && q in g.same[u] ensures q != p {
      assert Type(h, q) == u;
    }
  }

  lemma SameLists(h: Heap, g: Book, h': Heap, g': Book, i: nat, t: nat, k: nat)
    requires Lists(h, g) && i < |g.all| && t < 8 && k < |g.same[t]| && g.all[i] < 256
    requires |h'.bases| == 8 && |g'.same| == 8 && |h'.inuse| == 256 && h'.inuse == h.inuse[g.all[i] := false]
    requires AllChain(h'.prs, h'.allbase, g'.all) && forall u :: 0 <= u < 8 ==> SameChain(h'.prs, h'.bases[u], g'.same[u])
    requires forall q: nat :: Type(h', q) == Type(h, q)
    requires forall q :: q in g'.all <==> q in g.all && q != g.all[i]
    requires forall u, q :: 0 <= u < 8 ==> (q in g'.same[u] <==> q in g.same[u] && q != g.all[i])
    ensures Lists(h', g')
  {
    hide AllChain, SameChain, Type;
  }

  // The page goes from all lists; the others stay as they were.
  lemma DropStep(h: Heap, g: Book, i: nat, t: nat, k: nat)
    requires HeapOk(h, g) && i < |g.all| && t < 8 && k < |g.same[t]| && g.all[i] == g.same[t][k]
    ensures HeapOk(DropHeap(h, g, i, t, k), DropBook(g, i, t, k))
    ensures forall q: nat, x: nat :: Out(DropHeap(h, g, i, t, k), DropBook(g, i, t, k), q, x) <==> Out(h, g, q, x) && q != g.all[i]
    ensures forall q: nat :: Addr(DropHeap(h, g, i, t, k), q) == Addr(h, q)
  {
    var h', g' := DropHeap(h, g, i, t, k), DropBook(g, i, t, k);
    DropLists(h, g, i, t, k);
    SameRefsViews(h, h');
    RemoveAtMembers(g.all, i);
    assert h'.mem == h.mem;
    hide FreeList, Type, Addr, DropHeap, RemoveAt, IsOffset;
    assert forall q: nat :: q != g.all[i] ==> Free(g', q) == Free(g, q);
  }
}
