// How each step of the subpage allocator changes the lists, the freelists and
// the set of blocks handed out.
module KHeapSteps {
  import opened Chains
  import opened KHeapState

  // ---- Steps within one page ----

  // Only the freelist fields of pageref p differ.
  ghost predicate SameLinks(h: Heap, h': Heap, p: nat) {
    && p < 256
    && h'.prs == h.prs[p := h.prs[p].(freeOff := h'.prs[p].freeOff, nfree := h'.prs[p].nfree)]
    && h'.bases == h.bases && h'.allbase == h.allbase && h'.inuse == h.inuse
  }

  lemma SameLinksViews(h: Heap, h': Heap, p: nat)
    requires SameLinks(h, h', p)
    ensures forall q: nat :: Type(h', q) == Type(h, q) && Addr(h', q) == Addr(h, q)
    ensures forall q: nat :: q != p ==> Pr(h', q) == Pr(h, q)
  {
  }

  lemma ListsKept(h: Heap, g: Book, h': Heap, p: nat, f: seq<nat>)
    requires Lists(h, g) && SameLinks(h, h', p)
    ensures Lists(h', g.(free := g.free[p := f]))
  {
    SameLinksViews(h, h', p);
    forall i | 0 <= i < |g.all| ensures AllNode(h'.prs, g.all, i) {
      assert AllNode(h.prs, g.all, i);
    }
    forall t, i | 0 <= t < 8 && 0 <= i < |g.same[t]| ensures SameNode(h'.prs, g.same[t], i) {
      assert SameNode(h.prs, g.same[t], i);
    }
    hide Type, Distinct, AllNode, SameNode;
  }

  // A page's freelist is undisturbed by a change elsewhere in memory.
  lemma ChainElsewhere(mem: Mem, mem': Mem, page: nat, t: nat, f: seq<nat>, lo: nat, hi: nat)
    requires FreeChain(mem, page, t, f)
    requires forall a: nat :: a < lo || hi <= a ==> Load(mem', a) == Load(mem, a)
    requires forall i :: 0 <= i < |f| ==> page + f[i] < lo || hi <= page + f[i]
    ensures FreeChain(mem', page, t, f)
  {
    hide Load, IsOffset, Distinct;
    forall i | 0 <= i < |f| ensures FreeNode(mem', page, f, i) {
      assert FreeNode(mem, page, f, i);
    }
  }

  lemma ChainTail(mem: Mem, page: nat, t: nat, f: seq<nat>)
    requires FreeChain(mem, page, t, f) && |f| > 0
    ensures FreeChain(mem, page, t, f[1..])
    ensures IsOffset(t, f[0]) && f[0] < 4096 && Load(mem, page + f[0]) == if |f| > 1 then page + f[1] else 0
    ensures |f| > 1 ==> f[1] < 4096
    ensures forall o :: o in f[1..] <==> o in f && o != f[0]
  {
    hide Load, IsOffset;
    var f' := f[1..];
    assert FreeNode(mem, page, f, 0);
    forall i | 0 <= i < |f'| ensures FreeNode(mem, page, f', i) {
      assert FreeNode(mem, page, f, i + 1);
    }
    OffsetInPage(t, f[0]);
    if |f| > 1 { OffsetInPage(t, f[1]); }
  }

  lemma OffsetInPage(t: nat, o: nat)
    requires IsOffset(t, o)
    ensures o < 4096
  {
  }

  // ---- Taking a block: the doalloc path of subpage_kmalloc ----

  // The pageref after its first free block, whose stored link is next, was unlinked.
  function TakenRef(p: PageRef, next: nat): PageRef {
    p.(freeOff := if next >= PageAddr(p) && next != 0 then next - PageAddr(p) else 0xffff,
       nfree := if p.nfree > 0 then p.nfree - 1 else 0)
  }

  // What the assertions on the doalloc path check.
  predicate TakeChecks(p: PageRef, next: nat) {
    && p.nfree > 0 && p.freeOff < 4096
    && (next != 0 ==> next >= PageAddr(p) && p.nfree > 1 && next - PageAddr(p) < 4096)
    && (next == 0 ==> p.nfree == 1)
  }

  lemma TakeFreeList(mem: Mem, p: PageRef, f: seq<nat>)
    requires FreeList(mem, p, f) && |f| > 0
    ensures p.freeOff == f[0]
    ensures TakeChecks(p, Load(mem, PageAddr(p) + p.freeOff))
    ensures FreeList(mem, TakenRef(p, Load(mem, PageAddr(p) + p.freeOff)), f[1..])
  {
    ChainTail(mem, PageAddr(p), BlockType(p), f);
    RefViews(p, if |f| > 1 then f[1] else 0xffff, p.nfree - 1);
    hide Load, FreeChain, PageAddr, BlockType;
  }

  lemma RefViews(p: PageRef, off: nat, n: nat)
    ensures PageAddr(p.(freeOff := off, nfree := n)) == PageAddr(p)
    ensures BlockType(p.(freeOff := off, nfree := n)) == BlockType(p)
  {
  }

  // h with pageref p replaced.
  function WithRef(h: Heap, p: nat, r: PageRef): Heap
    requires p < 256
  {
    h.(prs := h.prs[p := r])
  }

  function WithFree(g: Book, p: nat, f: seq<nat>): Book {
    g.(free := g.free[p := f])
  }

  // Replacing one page's freelist, in the pageref and in memory.
  lemma PagesUpdated(h: Heap, g: Book, h': Heap, p: nat, f: seq<nat>)
    requires Pages(h, g) && p in g.all && SameLinks(h, h', p)
    requires FreeList(h'.mem, Pr(h', p), f)
    requires forall q :: q in g.all && q != p ==> FreeList(h'.mem, Pr(h, q), Free(g, q))
    ensures Pages(h', WithFree(g, p, f))
    ensures forall q: nat :: Addr(h', q) == Addr(h, q) && Type(h', q) == Type(h, q)
    ensures forall q: nat :: Free(WithFree(g, p, f), q) == if q == p then f else Free(g, q)
  {
    SameLinksViews(h, h', p);
    hide FreeList, Addr, Type;
  }

  lemma FreeListOf(h: Heap, g: Book, p: nat)
    requires HeapOk(h, g) && p in g.all
    ensures p < 256 && FreeList(h.mem, Pr(h, p), Free(g, p))
  {
    hide FreeList, Lists;
  }

  function NextFree(h: Heap, p: nat): nat {
    Load(h.mem, Addr(h, p) + Pr(h, p).freeOff)
  }

  function TakeHeap(h: Heap, p: nat): Heap
    requires p < 256
  {
    WithRef(h, p, TakenRef(h.prs[p], NextFree(h, p)))
  }

  lemma TakeStep(h: Heap, g: Book, p: nat)
    requires HeapOk(h, g) && p in g.all && p < 256 && |Free(g, p)| > 0
    ensures h.prs[p].freeOff == Free(g, p)[0] && TakeChecks(h.prs[p], NextFree(h, p))
    ensures HeapOk(TakeHeap(h, p), WithFree(g, p, Free(g, p)[1..]))
    ensures SameLinks(h, TakeHeap(h, p), p)
  {
    var f := Free(g, p);
    FreeListOf(h, g, p);
    TakeFreeList(h.mem, h.prs[p], f);
    hide Load, FreeList, Lists, PageAddr;
    ListsKept(h, g, TakeHeap(h, p), p, f[1..]);
    PagesUpdated(h, g, TakeHeap(h, p), p, f[1..]);
  }

  // Taking hands out the first free block and nothing else.
  lemma TakeOut(h: Heap, g: Book, p: nat)
    requires HeapOk(h, g) && p in g.all && p < 256 && |Free(g, p)| > 0
    ensures var h' := TakeHeap(h, p); var g' := WithFree(g, p, Free(g, p)[1..]); var o := Free(g, p)[0];
            && !Out(h, g, p, o)
            && (forall q: nat, x: nat :: Out(h', g', q, x) <==> Out(h, g, q, x) || (q == p && x == o))
  {
    var f := Free(g, p);
    var h' := TakeHeap(h, p);
    FreeListOf(h, g, p);
    TakeStep(h, g, p);
    ChainTail(h.mem, Addr(h, p), Type(h, p), f);
    SameLinksViews(h, h', p);
    hide Addr, Type, FreeList, Lists, Pages, IsOffset, TakeHeap;
  }

  // ---- Giving a block back: subpage_kfree ----

  // Memory changed only inside [a, a + n), and a now holds link.
  ghost predicate Rewritten(mem: Mem, mem': Mem, a: nat, n: nat, link: nat) {
    && Load(mem', a) == link
    && (forall x: nat :: x < a || a + n <= x ==> Load(mem', x) == Load(mem, x))
  }

  lemma ChainCons(mem: Mem, page: nat, t: nat, f: seq<nat>, o: nat)
    requires FreeChain(mem, page, t, f) && IsOffset(t, o) && o !in f
    requires Load(mem, page + o) == if f == [] then 0 else page + f[0]
    ensures FreeChain(mem, page, t, [o] + f)
  {
    hide Load, IsOffset;
    var f' := [o] + f;
    forall i | 0 <= i < |f'| ensures FreeNode(mem, page, f', i) {
      if i > 0 { assert FreeNode(mem, page, f, i - 1); }
    }
  }

  // Freeing block o leaves the other free blocks of its own page alone,
  lemma OwnChainKept(mem: Mem, mem': Mem, page: nat, t: nat, f: seq<nat>, o: nat, link: nat)
    requires FreeChain(mem, page, t, f) && IsOffset(t, o) && o !in f
    requires Rewritten(mem, mem', page + o, Size(t), link)
    ensures FreeChain(mem', page, t, f)
  {
    forall i | 0 <= i < |f| ensures page + f[i] < page + o || page + o + Size(t) <= page + f[i] {
      OffsetsApart(t, f[i], o);
    }
    hide Load, Size, IsOffset;
    ChainElsewhere(mem, mem', page, t, f, page + o, page + o + Size(t));
  }

  // and those of every other page.
  lemma OtherChainKept(mem: Mem, mem': Mem, page: nat, t: nat, f: seq<nat>, at: nat, n: nat, other: nat)
    requires FreeChain(mem, page, t, f) && page % 4096 == 0 && other % 4096 == 0 && page != other
    requires other <= at && at + n <= other + 4096
    requires forall x: nat :: x < at || at + n <= x ==> Load(mem', x) == Load(mem, x)
    ensures FreeChain(mem', page, t, f)
  {
    hide Load, Size;
    PagesApart(page, other);
    ChainElsewhere(mem, mem', page, t, f, at, at + n);
  }

  function GivenRef(p: PageRef, o: nat): PageRef {
    p.(freeOff := o, nfree := p.nfree + 1)
  }

  function GiveHeap(h: Heap, p: nat, o: nat, mem': Mem): Heap
    requires p < 256
  {
    WithRef(h, p, GivenRef(h.prs[p], o)).(mem := mem')
  }

  lemma GiveOwn(mem: Mem, mem': Mem, r: PageRef, f: seq<nat>, o: nat)
    requires FreeList(mem, r, f) && IsOffset(BlockType(r), o) && o !in f
    requires Rewritten(mem, mem', PageAddr(r) + o, Size(BlockType(r)), if f == [] then 0 else PageAddr(r) + f[0])
    ensures FreeList(mem', GivenRef(r, o), [o] + f)
  {
    var link := if f == [] then 0 else PageAddr(r) + f[0];
    RefViews(r, o, r.nfree + 1);
    hide Load, Size, IsOffset, PageAddr, BlockType, FreeChain;
    OwnChainKept(mem, mem', PageAddr(r), BlockType(r), f, o, link);
    ChainCons(mem', PageAddr(r), BlockType(r), f, o);
  }

  lemma GiveOther(h: Heap, g: Book, mem': Mem, p: nat, o: nat, q: nat)
    requires Pages(h, g) && p in g.all && q in g.all && q != p && IsOffset(Type(h, p), o)
    requires forall x: nat :: x < Addr(h, p) + o || Addr(h, p) + o + Size(Type(h, p)) <= x ==> Load(mem', x) == Load(h.mem, x)
    ensures FreeList(mem', Pr(h, q), Free(g, q))
  {
    OffsetFits(Type(h, p), o);
    assert FreeList(h.mem, Pr(h, q), Free(g, q)) by { hide FreeList; }
    hide Load, Size, FreeChain, IsOffset;
    OtherChainKept(h.mem, mem', Addr(h, q), Type(h, q), Free(g, q), Addr(h, p) + o, Size(Type(h, p)), Addr(h, p));
  }

  // Freeing block o of page p puts it at the head of that page's freelist.
  lemma GiveStep(h: Heap, g: Book, p: nat, o: nat, mem': Mem)
    requires HeapOk(h, g) && Out(h, g, p, o) && p < 256
    requires Rewritten(h.mem, mem', Addr(h, p) + o, Size(Type(h, p)),
                       if Free(g, p) == [] then 0 else Addr(h, p) + Free(g, p)[0])
    ensures HeapOk(GiveHeap(h, p, o, mem'), WithFree(g, p, [o] + Free(g, p)))
    ensures SameLinks(h, GiveHeap(h, p, o, mem'), p)
  {
    var f := Free(g, p);
    var h' := GiveHeap(h, p, o, mem');
    FreeListOf(h, g, p);
    hide Load, FreeList, Lists, PageAddr, BlockType, Size, IsOffset;
    GiveOwn(h.mem, mem', h.prs[p], f, o);
    forall q | q in g.all && q != p ensures FreeList(mem', Pr(h, q), Free(g, q)) {
      GiveOther(h, g, mem', p, o, q);
    }
    ListsKept(h, g, h', p, [o] + f);
    PagesUpdated(h, g, h', p, [o] + f);
  }

  // Giving takes back that block and no other.
  lemma GiveOut(h: Heap, g: Book, p: nat, o: nat, mem': Mem)
    requires p < 256 && Out(h, g, p, o) && SameLinks(h, GiveHeap(h, p, o, mem'), p)
    ensures var h' := GiveHeap(h, p, o, mem'); var g' := WithFree(g, p, [o] + Free(g, p));
            forall q: nat, x: nat :: Out(h', g', q, x) <==> Out(h, g, q, x) && !(q == p && x == o)
  {
    SameLinksViews(h, GiveHeap(h, p, o, mem'), p);
    hide Addr, Type, IsOffset, GiveHeap;
  }

  // Storing into a block that is handed out touches no freelist.
  lemma StoreStep(h: Heap, g: Book, p: nat, o: nat, a: nat, v: nat)
    requires HeapOk(h, g) && Out(h, g, p, o) && Addr(h, p) + o <= a < Addr(h, p) + o + Size(Type(h, p))
    ensures HeapOk(h.(mem := h.mem[a := v]), g)
  {
    var h' := h.(mem := h.mem[a := v]);
    var n := Size(Type(h, p));
    assert forall x: nat :: x < Addr(h, p) + o || Addr(h, p) + o + n <= x ==> Load(h'.mem, x) == Load(h.mem, x);
    FreeListOf(h, g, p);
    assert forall q: nat :: Pr(h', q) == Pr(h, q);
    hide Load, FreeList, PageAddr, BlockType, Size, IsOffset, FreeChain, AllChain, SameChain;
    forall q | q in g.all ensures FreeList(h'.mem, Pr(h, q), Free(g, q)) {
      if q == p {
        OwnStored(h.mem, h'.mem, Pr(h, p), Free(g, p), o, Addr(h, p) + o);
      } else {
        GiveOther(h, g, h'.mem, p, o, q);
      }
    }
    MemOnly(h, g, h');
  }

  lemma MemOnly(h: Heap, g: Book, h': Heap)
    requires HeapOk(h, g) && h' == h.(mem := h'.mem)
    requires forall q :: q in g.all ==> FreeList(h'.mem, Pr(h, q), Free(g, q))
    ensures HeapOk(h', g)
  {
    hide FreeList, PageAddr, BlockType, AllChain, SameChain;
    assert forall q: nat :: Pr(h', q) == Pr(h, q);
    assert forall q: nat :: Type(h', q) == Type(h, q) && Addr(h', q) == Addr(h, q);
  }

  lemma OwnStored(mem: Mem, mem': Mem, r: PageRef, f: seq<nat>, o: nat, a: nat)
    requires FreeList(mem, r, f) && IsOffset(BlockType(r), o) && o !in f && a == PageAddr(r) + o
    requires forall x: nat :: x < a || a + Size(BlockType(r)) <= x ==> Load(mem', x) == Load(mem, x)
    ensures FreeList(mem', r, f)
  {
    hide Load, PageAddr;
    OwnChainKept(mem, mem', PageAddr(r), BlockType(r), f, o, Load(mem', a));
  }
}
