// The subpage allocator's data as values: pagerefs, their two linked lists, and
// the freelists threaded through the free memory itself.
module KHeapState {
  import opened Chains

  // Pages have 4096 bytes; there are eight block sizes and 256 pagerefs.
  const INVALID_OFFSET: nat := 0xffff
  const DEADBEEF: nat := 0xdead_beef

  // sizes[]
  function Size(t: nat): (s: nat)
    requires t < 8
    ensures 16 <= s <= 2048 && s % 16 == 0 && 4096 % s == 0
  {
    [16, 32, 64, 128, 256, 512, 1024, 2048][t]
  }

  // The least power of two from 16 on that holds sz bytes.
  function LeastSize(sz: nat): (n: nat)
    ensures 16 <= n <= 2048
  {
    if sz <= 16 then 16 else if sz <= 32 then 32 else if sz <= 64 then 64 else if sz <= 128 then 128
    else if sz <= 256 then 256 else if sz <= 512 then 512 else if sz <= 1024 then 1024 else 2048
  }

  lemma LeastIs(sz: nat, t: nat)
    requires t < 8 && sz <= Size(t) && forall u :: 0 <= u < t ==> Size(u) < sz
    ensures Size(t) == LeastSize(sz)
  {
    if t > 0 { assert Size(t - 1) < sz; }
  }

  lemma SizeOnce(t: nat, u: nat)
    requires t < 8 && u < 8 && Size(t) == Size(u)
    ensures t == u
  {
  }

  // Blocks of type t on a page.
  function PerPage(t: nat): (n: nat)
    requires t < 8
    ensures 2 <= n <= 256 && n * Size(t) == 4096
  {
    4096 / Size(t)
  }

  // A pageref; -1 is the null link.
  datatype PageRef = PageRef(nextSame: int, nextAll: int, pab: nat, freeOff: nat, nfree: nat)

  // PR_PAGEADDR and PR_BLOCKTYPE: the page address with the block type in its low bits.
  function PageAddr(p: PageRef): (a: nat)
    ensures a % 4096 == 0
  {
    p.pab - p.pab % 4096
  }

  function BlockType(p: PageRef): nat {
    p.pab % 4096
  }

  // Memory by word address, a multiple of 4; what was never stored reads as 0.
  type Mem = map<nat, nat>

  function Load(mem: Mem, a: nat): nat {
    if a in mem then mem[a] else 0
  }

  type PageRefs = s: seq<PageRef> | |s| == 256 witness seq<PageRef>(256, _ => PageRef(-1, -1, 0, 0, 0))

  // ---- Linked lists ----

  ghost predicate AllNode(prs: PageRefs, s: seq<nat>, i: nat)
    requires i < |s|
  {
    s[i] < 256 && prs[s[i]].nextAll == NextIn(s, i)
  }

  ghost predicate SameNode(prs: PageRefs, s: seq<nat>, i: nat)
    requires i < |s|
  {
    s[i] < 256 && prs[s[i]].nextSame == NextIn(s, i)
  }

  // s is the list from head along next_all.
  ghost predicate AllChain(prs: PageRefs, head: int, s: seq<nat>) {
    && head == HeadOf(s) && Distinct(s)
    && (forall i :: 0 <= i < |s| ==> AllNode(prs, s, i))
  }

  // s is the list from head along next_samesize.
  ghost predicate SameChain(prs: PageRefs, head: int, s: seq<nat>) {
    && head == HeadOf(s) && Distinct(s)
    && (forall i :: 0 <= i < |s| ==> SameNode(prs, s, i))
  }

  // ---- Freelists in memory ----

  // The block offsets of a page of type t.
  predicate IsOffset(t: nat, o: nat) {
    t < 8 && o < 4096 && o % Size(t) == 0
  }

  // The word stored in the i-th free block: the address of the next one, or 0.
  function FreeLink(page: nat, f: seq<nat>, i: nat): nat
    requires i < |f|
  {
    if i + 1 < |f| then page + f[i + 1] else 0
  }

  ghost predicate FreeNode(mem: Mem, page: nat, f: seq<nat>, i: nat)
    requires i < |f|
  {
    Load(mem, page + f[i]) == FreeLink(page, f, i)
  }

  // Memory links the offsets f of a page of type t, in order.
  ghost predicate FreeChain(mem: Mem, page: nat, t: nat, f: seq<nat>) {
    && t < 8 && page > 0 && Distinct(f)
    && (forall i :: 0 <= i < |f| ==> IsOffset(t, f[i]))
    && (forall i :: 0 <= i < |f| ==> FreeNode(mem, page, f, i))
  }

  function FirstOffset(f: seq<nat>): nat {
    if f == [] then 0xffff else f[0]
  }

  // f is the freelist of pageref p.
  ghost predicate FreeList(mem: Mem, p: PageRef, f: seq<nat>) {
    && p.nfree == |f| && p.freeOff == FirstOffset(f)
    && FreeChain(mem, PageAddr(p), BlockType(p), f)
  }

  // ---- The heap ----

  datatype Heap = Heap(mem: Mem, prs: PageRefs, bases: seq<int>, allbase: int, inuse: seq<bool>)

  // What the links spell out: all pages, the eight chains, the freelist of each page.
  datatype Book = Book(all: seq<nat>, same: seq<seq<nat>>, free: map<nat, seq<nat>>)

  function Pr(h: Heap, p: nat): PageRef {
    if p < 256 then h.prs[p] else PageRef(-1, -1, 0, 0, 0)
  }

  function Free(g: Book, p: nat): seq<nat> {
    if p in g.free then g.free[p] else []
  }

  function Type(h: Heap, p: nat): nat {
    BlockType(Pr(h, p))
  }

  function Addr(h: Heap, p: nat): nat {
    PageAddr(Pr(h, p))
  }

  // Between calls, the list of all pages is the disjoint union of the eight chains,
  // and an in-use flag is set exactly for the pagerefs on it.
  ghost predicate Lists(h: Heap, g: Book) {
    && |h.bases| == 8 && |g.same| == 8 && |h.inuse| == 256
    && AllChain(h.prs, h.allbase, g.all)
    && (forall t :: 0 <= t < 8 ==> SameChain(h.prs, h.bases[t], g.same[t]))
    && (forall p :: p in g.all ==> p < 256 && Type(h, p) < 8 && p in g.same[Type(h, p)])
    && (forall t, p :: 0 <= t < 8 && p in g.same[t] ==> p in g.all && Type(h, p) == t)
    && (forall p :: 0 <= p < 256 ==> (h.inuse[p] <==> p in g.all))
  }

  // Every pageref is taken.
  predicate AllTaken(inuse: seq<bool>) {
    |inuse| == 256 && forall i :: 0 <= i < 256 ==> inuse[i]
  }

  // Each page's freelist is in order, and no page is listed twice.
  ghost predicate Pages(h: Heap, g: Book) {
    && (forall p :: p in g.all ==> p < 256 && FreeList(h.mem, Pr(h, p), Free(g, p)))
    && (forall p, q :: p in g.all && q in g.all && p != q ==> Addr(h, p) != Addr(h, q))
  }

  ghost predicate HeapOk(h: Heap, g: Book) {
    Lists(h, g) && Pages(h, g)
  }

  // Every page kept has a block in use.
  ghost predicate NoIdlePage(h: Heap, g: Book) {
    forall p :: p in g.all ==> Type(h, p) < 8 && |Free(g, p)| < PerPage(Type(h, p))
  }

  // ---- Live blocks ----

  // Block o of page p is handed out.
  predicate Out(h: Heap, g: Book, p: nat, o: nat) {
    p in g.all && IsOffset(Type(h, p), o) && o !in Free(g, p)
  }

  // n bytes at address a were handed out and not yet freed.
  ghost predicate Live(h: Heap, g: Book, a: nat, n: nat) {
    exists p: nat, o: nat :: BlockIs(h, g, p, o, a, n)
  }

  // Block o of page p is handed out; its address is a and its size n.
  predicate BlockIs(h: Heap, g: Book, p: nat, o: nat, a: nat, n: nat) {
    Out(h, g, p, o) && a == Addr(h, p) + o && n == Size(Type(h, p))
  }

  // Two blocks of the heap at different places share no byte.
  lemma BlocksApart(h: Heap, g: Book, p: nat, o: nat, q: nat, r: nat)
    requires Pages(h, g) && p in g.all && q in g.all && IsOffset(Type(h, p), o) && IsOffset(Type(h, q), r)
    requires Addr(h, p) + o != Addr(h, q) + r
    ensures Addr(h, p) + o + Size(Type(h, p)) <= Addr(h, q) + r || Addr(h, q) + r + Size(Type(h, q)) <= Addr(h, p) + o
    ensures o + Size(Type(h, p)) <= 4096
  {
    hide Size;
    OffsetFits(Type(h, p), o);
    OffsetFits(Type(h, q), r);
    if p == q {
      OffsetsApart(Type(h, p), o, r);
    } else {
      PagesApart(Addr(h, p), Addr(h, q));
    }
  }

  lemma OffsetFits(t: nat, o: nat)
    requires IsOffset(t, o)
    ensures o + Size(t) <= 4096
  {
  }

  lemma OffsetsApart(t: nat, a: nat, b: nat)
    requires IsOffset(t, a) && IsOffset(t, b) && a != b
    ensures a + Size(t) <= b || b + Size(t) <= a
  {
    if t == 0 {} else if t == 1 {} else if t == 2 {} else if t == 3 {}
    else if t == 4 {} else if t == 5 {} else if t == 6 {} else {}
  }

  lemma PagesApart(a: nat, b: nat)
    requires a % 4096 == 0 && b % 4096 == 0 && a != b
    ensures a + 4096 <= b || b + 4096 <= a
  {
  }

  // Blocks handed out are aligned and pairwise disjoint.
  lemma LiveDisjoint(h: Heap, g: Book, a: nat, n: nat, b: nat, m: nat)
    requires HeapOk(h, g) && Live(h, g, a, n) && Live(h, g, b, m)
    ensures a % 16 == 0 && 16 <= n
    ensures a == b ==> n == m
    ensures a != b ==> a + n <= b || b + m <= a
  {
    hide BlockIs, Lists, Pages;
    var p: nat, o: nat :| BlockIs(h, g, p, o, a, n);
    var q: nat, r: nat :| BlockIs(h, g, q, r, b, m);
    TwoBlocks(h, g, p, o, a, n, q, r, b, m);
  }

  lemma TwoBlocks(h: Heap, g: Book, p: nat, o: nat, a: nat, n: nat, q: nat, r: nat, b: nat, m: nat)
    requires Pages(h, g) && BlockIs(h, g, p, o, a, n) && BlockIs(h, g, q, r, b, m)
    ensures a % 16 == 0 && 16 <= n
    ensures a == b ==> n == m
    ensures a != b ==> a + n <= b || b + m <= a
  {
    hide FreeList, Addr, Type, Pages;
    AddrAligned(h, p);
    OffsetAligned(Type(h, p), o);
    AlignedSum(Addr(h, p), o);
    if a != b {
      BlocksApart(h, g, p, o, q, r);
    } else {
      SameBlock(h, g, p, o, q, r);
    }
  }

  lemma SameBlock(h: Heap, g: Book, p: nat, o: nat, q: nat, r: nat)
    requires Pages(h, g) && p in g.all && q in g.all && o < 4096 && r < 4096
    requires Addr(h, p) + o == Addr(h, q) + r
    ensures p == q && o == r
  {
    hide FreeList, Addr;
    AddrAligned(h, p);
    AddrAligned(h, q);
    if Addr(h, p) != Addr(h, q) {
      PagesApart(Addr(h, p), Addr(h, q));
    }
  }

  lemma AddrAligned(h: Heap, p: nat)
    ensures Addr(h, p) % 4096 == 0
  {
  }

  lemma AlignedSum(x: nat, o: nat)
    requires x % 4096 == 0 && o % 16 == 0
    ensures (x + o) % 16 == 0
  {
  }

  lemma OffsetAligned(t: nat, o: nat)
    requires IsOffset(t, o)
    ensures o % 16 == 0
  {
    if t == 0 {} else if t == 1 {} else if t == 2 {} else if t == 3 {}
    else if t == 4 {} else if t == 5 {} else if t == 6 {} else {}
  }

  // ---- The freelist as memory has it ----

  // The first n offsets along the links in memory from offset off of a page.
  function Walk(mem: Mem, page: nat, off: nat, n: nat): seq<nat>
    decreases n
  {
    if n == 0 then []
    else
      var next := Load(mem, page + off);
      [off] + Walk(mem, page, if next >= page then next - page else 0, n - 1)
  }

  lemma {:induction false} WalkIs(mem: Mem, page: nat, t: nat, f: seq<nat>)
    requires FreeChain(mem, page, t, f)
    ensures Walk(mem, page, FirstOffset(f), |f|) == f
    decreases |f|
  {
    if f != [] {
      assert FreeNode(mem, page, f, 0);
      var r := f[1..];
      forall i | 0 <= i < |r| ensures FreeNode(mem, page, r, i) {
        assert FreeNode(mem, page, f, i + 1);
      }
      hide Load, FreeNode, IsOffset;
      WalkIs(mem, page, t, r);
      assert f == [f[0]] + r;
    }
  }

  // The freelist of page p, followed in memory from its pageref, nfree blocks long.
  function FreeInMemory(h: Heap, p: nat): seq<nat> {
    Walk(h.mem, Addr(h, p), Pr(h, p).freeOff, Pr(h, p).nfree)
  }

  lemma FreeIsInMemory(h: Heap, g: Book, p: nat)
    requires HeapOk(h, g) && p in g.all
    ensures p < 256 && FreeInMemory(h, p) == Free(g, p) && h.prs[p].nfree == |Free(g, p)| && Distinct(Free(g, p))
  {
    hide Lists, Walk, FreeNode, IsOffset;
    assert FreeList(h.mem, Pr(h, p), Free(g, p));
    WalkIs(h.mem, Addr(h, p), Type(h, p), Free(g, p));
  }

  // The list of all pages is the disjoint union of the eight size chains, and a pageref
  // is in use exactly if it is on them.
  lemma PageOnOneChain(h: Heap, g: Book, p: nat)
    requires HeapOk(h, g) && p < 256
    ensures |h.inuse| == 256 && |g.same| == 8 && (h.inuse[p] <==> p in g.all)
    ensures p in g.all <==> exists t :: 0 <= t < 8 && p in g.same[t]
    ensures forall t, u :: 0 <= t < 8 && 0 <= u < 8 && p in g.same[t] && p in g.same[u] ==> t == u
    ensures Distinct(g.all) && forall t :: 0 <= t < 8 ==> Distinct(g.same[t])
  {
    hide AllNode, SameNode, Pages;
    if p in g.all { assert p in g.same[Type(h, p)]; }
    forall t | 0 <= t < 8 ensures Distinct(g.same[t]) {
      assert SameChain(h.prs, h.bases[t], g.same[t]);
    }
  }
}
