// The core map, the swap file and the page tables.
module CoreMaps {
  import opened Chains
  import opened FrameLists
  import opened PagingState
  import opened PagingSteps
  import opened PagingClock
  import opened PagingFacts
  import opened PagingClaims

  // How a step ends; all but Done are panics or failed assertions.
  datatype Outcome = Done | SwapFull | AllKernel | NoRun | BadRelease

  class CoreMap {
    const low: nat
    const size: nat
    var kern: seq<nat>
    var pd: seq<int>
    var free: seq<bool>
    var next: seq<int>
    var prev: seq<int>
    var head: int
    var last: int
    var clock: nat
    var pages: map<nat, Page>
    var phys: seq<Data>
    var image: map<nat, Data>
    var slotNext: seq<int>
    var freePages: int
    var swap: seq<Data>
    ghost var book: Book
    ghost var held: map<nat, Request>

    ghost function View(): Vm
      reads this
    {
      Vm(low, size, kern, pd, free, pages, phys, swap, image)
    }

    // The links spell out the free frames and the free slots.
    ghost predicate Linked()
      reads this`next, this`prev, this`head, this`last, this`slotNext, this`freePages, this`clock, this`book
    {
      && |next| == size && |prev| == size && DoubleList(next, prev, head, last, book.frames)
      && |slotNext| == 1024 && Chain(slotNext, freePages, book.slots)
      && low < size && clock < size - low
    }

    // cm_bootstrap and swap_bootstrap: all managed frames and all slots free, the
    // highest frame first.
    constructor (low: nat, size: nat, phys: seq<Data>, swap: seq<Data>)
      requires low < size == |phys| && |swap| == 1024
      ensures Valid() && book.live == {} && held == map[] && book.frames == Downward(low, size) && pages == map[]
      ensures this.low == low && this.size == size && kern == seq(size, _ => 0)
    {
      this.low, this.size := low, size;
      this.phys, this.swap := phys, swap;
      kern, pd, free := seq(size, _ => 0), seq(size, _ => -1), seq(size, _ => false);
      next, prev := seq(size, _ => -1), seq(size, _ => -1);
      head, last, clock := size - 1, low, 0;
      pages, image, held := map[], map[], map[];
      slotNext, freePages := seq(1024, _ => -1), 0;
      book := Book(Downward(low, size), Range(0, 1024), {});
      new;
      hide DoubleList, Chain, Owned, Downward, Range;
      ChainFrames();
      ChainSlots();
      FreshLists(low, size, next, prev, slotNext);
      FreshOwned(View());
    }

    // The loop of cm_bootstrap.
    method ChainFrames()
      requires low < size == |next| == |prev| == |free| && forall g :: 0 <= g < size ==> !free[g]
      modifies this`next, this`prev, this`free
      ensures |next| == |prev| == |free| == size && next[low] == -1 && prev[size - 1] == -1
      ensures forall g :: low < g < size ==> next[g] == g - 1
      ensures forall g :: low <= g < size - 1 ==> prev[g] == g + 1
      ensures forall g :: 0 <= g < size ==> free[g] == (low <= g)
    {
      var i := size - 1;
      while i >= low
        invariant low - 1 <= i < size && |next| == |prev| == |free| == size
        invariant forall g :: 0 <= g < size && i < g ==> next[g] == g - 1 && prev[g] == g + 1
        invariant forall g :: 0 <= g < size ==> free[g] == (i < g)
      {
        next := next[i := i - 1];
        prev := prev[i := i + 1];
        free := free[i := true];
        i := i - 1;
      }
      next := next[low := -1];
      prev := prev[size - 1 := -1];
    }

    // The loop of swap_bootstrap.
    method ChainSlots()
      requires |slotNext| == 1024
      modifies this`slotNext
      ensures |slotNext| == 1024 && slotNext[1023] == -1 && forall g :: 0 <= g < 1023 ==> slotNext[g] == g + 1
    {
      for i := 0 to 1023
        invariant |slotNext| == 1024 && forall g :: 0 <= g < i ==> slotNext[g] == g + 1
      {
        slotNext := slotNext[i := i + 1];
      }
      slotNext := slotNext[1023 := -1];
    }

    // ---- The free frame list ----

    // The links of free_frame_list_add.
    method LinkFront(f: nat, ghost s: seq<nat>)
      requires |next| == |prev| == size && DoubleList(next, prev, head, last, s) && f < size && f !in s
      modifies this`next, this`prev, this`head, this`last
      ensures |next| == |prev| == size && DoubleList(next, prev, head, last, [f] + s)
    {
      hide DoubleList;
      ghost var next0, prev0 := next, prev;
      Ends(next, prev, head, last, s);
      if head == -1 {
        head := f;
        last := f;
        next := next[f := -1];
        prev := prev[f := -1];
      } else {
        At(next, prev, head, last, s, 0);
        next := next[f := head];
        prev := prev[f := -1];
        prev := prev[head := f];
        head := f;
      }
      PushedFront(next0, prev0, next, prev, old(head), old(last), s, f);
    }

    // The links of free_frame_list_add_back.
    method LinkBack(f: nat, ghost s: seq<nat>)
      requires |next| == |prev| == size && DoubleList(next, prev, head, last, s) && f < size && f !in s
      modifies this`next, this`prev, this`head, this`last
      ensures |next| == |prev| == size && DoubleList(next, prev, head, last, s + [f])
    {
      hide DoubleList;
      ghost var next0, prev0 := next, prev;
      Ends(next, prev, head, last, s);
      if last == -1 {
        head := f;
        last := f;
        next := next[f := -1];
        prev := prev[f := -1];
      } else {
        At(next, prev, head, last, s, |s| - 1);
        prev := prev[f := last];
        next := next[f := -1];
        next := next[last := f];
        last := f;
      }
      PushedBack(next0, prev0, next, prev, old(head), old(last), s, f);
    }

    // The links of free_frame_list_pop.
    method UnlinkFirst(ghost s: seq<nat>) returns (f: nat)
      requires |next| == |prev| == size && DoubleList(next, prev, head, last, s) && s != []
      modifies this`prev, this`head, this`last
      ensures |next| == |prev| == size && DoubleList(next, prev, head, last, RemoveAt(s, 0))
      ensures f == s[0] && f < size
    {
      hide DoubleList;
      ghost var prev0 := prev;
      At(next, prev, head, last, s, 0);
      if |s| > 1 { At(next, prev, head, last, s, 1); }
      f := head;
      head := next[head];
      if head == -1 {
        last := -1;
      } else {
        prev := prev[head := -1];
      }
      Removed(next, prev0, next, prev, old(head), old(last), s, 0);
    }

    // The links of free_frame_list_remove.
    method Unlink(f: nat, ghost s: seq<nat>, ghost k: nat)
      requires |next| == |prev| == size && DoubleList(next, prev, head, last, s) && k < |s| && s[k] == f && f < size
      modifies this`next, this`prev, this`head, this`last
      ensures |next| == |prev| == size && DoubleList(next, prev, head, last, RemoveAt(s, k))
    {
      hide DoubleList;
      ghost var next0, prev0 := next, prev;
      At(next, prev, head, last, s, k);
      if k > 0 { At(next, prev, head, last, s, k - 1); }
      if k + 1 < |s| { At(next, prev, head, last, s, k + 1); }
      assert head != -1 && last != -1;
      if head == last {
        assert head == f;
        head := -1;
        last := -1;
      } else if head == f {
        head := next[head];
        prev := prev[head := -1];
      } else if last == f {
        last := prev[last];
        next := next[last := -1];
      } else {
        next := next[prev[f] := next[f]];
        prev := prev[next[f] := prev[f]];
      }
      Removed(next0, prev0, next, prev, old(head), old(last), s, k);
    }

    // free_frame_list_add
    method FreeFrameListAdd(f: nat)
      requires Linked() && f < size && |kern| == |free| == size && f !in book.frames
      modifies this`next, this`prev, this`head, this`last, this`free, this`kern, this`book
      ensures Linked() && book == old(book).(frames := [f] + old(book.frames))
      ensures View() == GiveVm(old(View()), f)
    {
      hide DoubleList, Chain;
      LinkFront(f, book.frames);
      free := free[f := true];
      kern := kern[f := 0];
      book := book.(frames := [f] + book.frames);
    }

    // free_frame_list_add_back
    method FreeFrameListAddBack(f: nat)
      requires Linked() && f < size && |kern| == |free| == size && f !in book.frames
      modifies this`next, this`prev, this`head, this`last, this`free, this`kern, this`book
      ensures Linked() && book == old(book).(frames := old(book.frames) + [f])
      ensures View() == GiveVm(old(View()), f)
    {
      hide DoubleList, Chain;
      LinkBack(f, book.frames);
      free := free[f := true];
      kern := kern[f := 0];
      book := book.(frames := book.frames + [f]);
    }

    // free_frame_list_pop: the first free frame, or -1.
    method FreeFrameListPop() returns (f: int)
      requires Linked() && |kern| == |free| == size
      modifies this`prev, this`head, this`last, this`free, this`kern, this`book
      ensures Linked() && (f == -1 <==> old(book.frames) == [])
      ensures f == -1 ==> book == old(book) && View() == old(View())
      ensures f != -1 ==> 0 <= f < size && f == old(book.frames)[0] && View() == TakeVm(old(View()), f)
      ensures f != -1 ==> book == old(book).(frames := RemoveAt(old(book.frames), 0))
    {
      hide DoubleList, Chain, RemoveAt;
      Ends(next, prev, head, last, book.frames);
      if head == -1 {
        return -1;
      }
      f := UnlinkFirst(book.frames);
      kern := kern[f := 1];
      free := free[f := false];
      book := book.(frames := RemoveAt(book.frames, 0));
    }

    // free_frame_list_remove
    method FreeFrameListRemove(f: nat, ghost k: nat)
      requires Linked() && f < size && |kern| == |free| == size && k < |book.frames| && book.frames[k] == f
      modifies this`next, this`prev, this`head, this`last, this`free, this`kern, this`book
      ensures Linked() && book == old(book).(frames := RemoveAt(old(book.frames), k))
      ensures View() == TakeVm(old(View()), f)
    {
      hide DoubleList, Chain, RemoveAt;
      Unlink(f, book.frames, k);
      free := free[f := false];
      kern := kern[f := 1];
      book := book.(frames := RemoveAt(book.frames, k));
    }

    // ---- The swap file ----

    // swap_free_page
    method SwapFreePage(n: nat)
      requires Linked() && n < 1024 && n !in book.slots
      modifies this`slotNext, this`freePages, this`book
      ensures Linked() && book == old(book).(slots := [n] + old(book.slots))
    {
      hide DoubleList, Chain;
      ChainPushed(slotNext, freePages, book.slots, n);
      slotNext := slotNext[n := freePages];
      freePages := n;
      book := book.(slots := [n] + book.slots);
    }

    // swap_write: frame f goes to the first free slot; -1 stands for the panic.
    method SwapWrite(f: nat) returns (s: int)
      requires Linked() && f < |phys| && |swap| == 1024
      modifies this`freePages, this`swap, this`book
      ensures s == -1 <==> old(book.slots) == []
      ensures Linked()
      ensures s != -1 ==> 0 <= s < 1024 && s == old(book.slots)[0] && swap == old(swap)[s := phys[f]]
      ensures s != -1 ==> book == old(book).(slots := old(book.slots)[1..])
    {
      hide DoubleList, Chain;
      ChainEnd(slotNext, freePages, book.slots);
      if freePages == -1 {
        // "Out of swap space"
        return -1;
      }
      ChainPopped(slotNext, freePages, book.slots);
      s := freePages;
      freePages := slotNext[freePages];
      book := book.(slots := book.slots[1..]);
      swap := swap[s := phys[f]];
    }

    // swap_read: slot n comes to frame f and is free again.
    method SwapRead(f: nat, n: nat)
      requires Linked() && f < |phys| && |swap| == 1024 && n < 1024 && n !in book.slots
      modifies this`phys, this`slotNext, this`freePages, this`book
      ensures Linked() && book == old(book).(slots := [n] + old(book.slots))
      ensures phys == old(phys)[f := swap[n]]
    {
      phys := phys[f := swap[n]];
      SwapFreePage(n);
    }

    // ---- Eviction ----

    // cm_free_core: the page in frame f leaves it. False stands for the panic. The kern
    // fields are not looked at: kv is what they are as far as the page is concerned.
    method FreeCore(f: nat, ghost p: nat, ghost kv: seq<nat>) returns (ok: bool)
      requires Linked() && Owned(View().(kern := kv), book, -1) && low <= f < size
      requires IsUser(View().(kern := kv), f) && PdOf(View(), f) == p
      modifies this`pages, this`pd, this`swap, this`freePages, this`book
      ensures ok <==> !(old(Pg(View(), p)).dirty && old(book.slots) == [])
      ensures ok ==> Linked() && Evicted(old(View()).(kern := kv), old(book), View().(kern := kv), book, f)
    {
      hide Owned, DoubleList, Chain, IsUser, SameShown, CoreMap.Linked;
      ghost var m, b := View().(kern := kv), book;
      Occupied(m, b, f);
      var p0: nat := pd[f];
      pages := pages[p0 := pages[p0].(valid := false, use := false, sfn := -2)];
      var sfn := -1;
      if pages[p0].dirty {
        sfn := SwapWrite(f);
        if sfn == -1 {
          return false;
        }
      }
      pages := pages[p0 := pages[p0].(sfn := sfn, pfn := -1)];
      pd := pd[f := -1];
      ghost var s: nat := if m.pages[p].dirty then sfn else 0;
      EvictStep(m, b, f, p, s);
      assert View().(kern := kv) == EvictVm(m, f, s) && book == EvictBook(m, b, p);
      return true;
    }

    // The clock pointer moves on.
    method Tick()
      requires Linked()
      modifies this`clock
      ensures Linked() && clock == (old(clock) + 1) % (size - low)
    {
      hide DoubleList, Chain;
      clock := (clock + 1) % (size - low);
    }

    // The first loop of cm_push_to_swap: up to a user frame whose use bit is clear.
    method FirstTurn() returns (found: bool, cd: nat, ghost k: nat)
      requires Linked() && Owned(View(), book, -1) && book.frames == []
      modifies this`pages, this`clock
      ensures Linked() && cd == low + clock
      ensures found ==> FirstUnused(old(View()), old(clock), k) && View() == Swept(old(View()), old(clock), k)
      ensures found ==> clock == Turn(old(View()), old(clock), k)
      ensures !found ==> AllUsed(old(View()), old(clock)) && View() == Swept(old(View()), old(clock), size - low) && clock == old(clock)
    {
      hide Owned, CoreMap.Linked, SameShown, UserAt, UseAt, PageAt, IsUser, Swept, Turn;
      ghost var m, b, c := View(), book, clock;
      ClockBound();
      WholeTurn(m, c);
      k := 0;
      for i := low to size
        invariant Linked() && View() == Swept(m, c, i - low) && clock == Turn(m, c, i - low)
        invariant forall j :: 0 <= j < i - low && UserAt(m, c, j) ==> UseAt(m, c, j)
      {
        ClockBound();
        k := i - low;
        ClockSees(m, b, c, k, k);
        Advance(m, c, k);
        cd := low + clock;
        if kern[cd] == 0 {
          // "FREE PHYSICAL FRAMES NOT IN THE FREE LIST"
          assert pd[cd] >= 0;
          var p: nat := pd[cd];
          if !pages[p].use {
            found := true;
            return;
          }
          pages := pages[p := pages[p].(use := false)];
        }
        SweptNext(m, c, k);
        Tick();
      }
      found, cd := false, low + clock;
    }

    // The second loop: up to a user frame.
    method SecondTurn(ghost m: Vm, ghost c: nat) returns (found: bool, cd: nat, ghost k: nat)
      requires Linked() && Owned(m, book, -1) && book.frames == [] && m.low == low && m.size == size
      requires c == clock && View() == Swept(m, c, size - low)
      modifies this`clock
      ensures Linked() && cd == low + clock
      ensures found ==> FirstUser(m, c, k) && clock == Turn(m, c, k)
      ensures !found ==> forall j :: 0 <= j < size - low ==> !UserAt(m, c, j)
    {
      hide Owned, CoreMap.Linked, SameShown, UserAt, UseAt, PageAt, IsUser, Swept, Turn;
      ClockBound();
      WholeTurn(m, c);
      k := 0;
      for i := low to size
        invariant Linked() && clock == Turn(m, c, i - low)
        invariant forall j :: 0 <= j < i - low ==> !UserAt(m, c, j)
      {
        ClockBound();
        k := i - low;
        ClockSees(m, book, c, size - low, k);
        Advance(m, c, k);
        cd := low + clock;
        if kern[cd] == 0 {
          assert pd[cd] >= 0;
          found := true;
          return;
        }
        Tick();
      }
      found, cd := false, low + clock;
    }

    // cm_push_to_swap: second-chance eviction. The k-th frame of the clock is taken
    // after w frames were passed.
    method PushToSwap() returns (out: Outcome, f: nat, ghost k: nat, ghost w: nat)
      requires Linked() && Owned(View(), book, -1) && book.frames == []
      modifies this`pages, this`clock, this`pd, this`swap, this`freePages, this`book
      ensures out == Done || out == SwapFull || out == AllKernel
      ensures out == AllKernel <==> forall g :: low <= g < size ==> !IsUser(old(View()), g)
      ensures out != AllKernel ==> Stops(old(View()), old(clock), k, w) && PageAt(old(View()), old(clock), k) >= 0
      ensures out == SwapFull <==> out != AllKernel && old(book.slots) == [] && DirtyAt(old(View()), old(clock), k)
      ensures out == Done ==> Linked() && f == ClockAt(old(View()), old(clock), k) && clock == Turn(old(View()), old(clock), k)
      ensures out == Done ==> Evicted(Swept(old(View()), old(clock), w), old(book), View(), book, f)
    {
      hide Owned, DoubleList, Chain, SameShown, Evicted, UserAt, UseAt, PageAt, IsUser, Swept, Turn, FirstUnused, AllUsed, FirstUser;
      ghost var m, b, c := View(), book, clock;
      var found;
      found, f, k := FirstTurn();
      w := if found then k else size - low;
      if !found {
        found, f, k := SecondTurn(m, c);
        if !found {
          // "Too many kernel pages! No more space in RAM for a new page."
          NoneAtAll(m, c);
          return AllKernel, 0, 0, 0;
        }
      }
      StopFacts(m, b, c, k, w);
      var ok := FreeCore(f, PageAt(m, c, k), kern);
      assert View().(kern := kern) == View();
      out := if ok then Done else SwapFull;
    }

    // cm_getppage: a free frame, or one taken from a page.
    method GetPpage() returns (out: Outcome, f: nat, ghost k: nat, ghost w: nat)
      requires Linked() && Owned(View(), book, -1)
      modifies this`prev, this`head, this`last, this`free, this`kern, this`book
      modifies this`pages, this`clock, this`pd, this`swap, this`freePages
      ensures out == Done || out == SwapFull || out == AllKernel
      ensures out == AllKernel <==> old(book.frames) == [] && forall g :: low <= g < size ==> !IsUser(old(View()), g)
      ensures out != AllKernel && old(book.frames) == [] ==> Stops(old(View()), old(clock), k, w)
      ensures out == SwapFull <==> old(book.frames) == [] && out != AllKernel && old(book.slots) == [] && DirtyAt(old(View()), old(clock), k)
      ensures out == Done ==> Linked() && Freed(old(View()), old(book), View(), book, f)
      ensures out == Done ==> f == if old(book.frames) == [] then ClockAt(old(View()), old(clock), k) else old(book.frames)[0]
      ensures out == Done && old(book.frames) == [] ==> Evicted(Swept(old(View()), old(clock), w), old(book), View(), book, f)
      ensures out == Done && old(book.frames) != [] ==> f < |old(kern)| && f < |old(free)| && View() == TakeVm(old(View()), f)
      ensures out == Done && old(book.frames) != [] ==> book == old(book).(frames := RemoveAt(old(book.frames), 0))
      ensures out == Done ==> clock == if old(book.frames) == [] then Turn(old(View()), old(clock), k) else old(clock)
    {
      hide Owned, DoubleList, Chain, SameShown, Evicted, Freed, IsUser, Swept, Stops, RemoveAt, ClockAt, TakeVm, DirtyAt, CoreMap.Linked;
      ghost var m, b, c := View(), book, clock;
      ShapeOf(m, b, -1);
      ClockBound();
      k, w := 0, 0;
      var frame := FreeFrameListPop();
      if frame == -1 {
        out, f, k, w := PushToSwap();
        if out == Done {
          FreedByClock(m, b, c, k, w, View(), book);
        }
      } else {
        FreedByPop(m, b);
        out, f := Done, frame;
      }
    }

    lemma ClockBound()
      requires Linked()
      ensures low < size && clock < size - low
    {
      hide DoubleList, Chain;
    }

    // Between steps.
    ghost predicate Valid()
      reads this
    {
      Linked() && Owned(View(), book, -1) && Runs(kern, low, held)
    }

    // ---- Page-in ----

    // cm_finish_paging
    method FinishPaging(frame: nat, p: nat)
      requires frame < |pd| && frame < |free| && frame < |kern| && p in pages
      modifies this`pd, this`pages, this`free, this`kern
      ensures pd == old(pd)[frame := p] && pages == old(pages)[p := old(pages)[p].(pfn := frame, valid := true)]
      ensures free == old(free)[frame := false] && kern == old(kern)[frame := 0]
    {
      pd := pd[frame := p];
      pages := pages[p := pages[p].(pfn := frame, valid := true)];
      free := free[frame := false];
      kern := kern[frame := 0];
    }

    // The two loading branches of pt_page_in, with a frame at hand: from swap, or from
    // the file.
    method Load(p: nat, f: nat)
      requires Linked() && low <= f < size && Owned(View(), book, f) && p in book.live
      requires p in pages && pages[p].pfn == -1 && pages[p].use
      modifies this`pages, this`phys, this`slotNext, this`freePages, this`book, this`pd, this`free, this`kern
      ensures Linked() && View() == FillVm(old(View()), f, p) && book == FillBook(old(View()), old(book), p)
    {
      hide Owned, DoubleList, Chain, CoreMap.Linked;
      ghost var m := View();
      PageFacts(m, book, f, p);
      pages := pages[p := pages[p].(pfn := f)];
      if pages[p].sfn != -1 {
        SwapRead(f, pages[p].sfn);
        pages := pages[p := pages[p].(sfn := -1)];
      } else {
        // load_segment_page
        phys := phys[f := image[p]];
      }
      FinishPaging(f, p);
    }

    // pt_page_in: page p comes to memory, showing what it showed.
    method PageIn(p: nat) returns (out: Outcome, ghost k: nat, ghost w: nat)
      requires Valid() && p in book.live
      modifies this
      ensures out == Done || out == SwapFull || out == AllKernel
      ensures old(Pg(View(), p)).pfn != -1 ==> out == Done && View() == UsedVm(old(View()), p) && book == old(book)
      ensures out == AllKernel <==> old(Pg(View(), p)).pfn == -1 && old(book.frames) == [] && forall g :: low <= g < size ==> !IsUser(old(View()), g)
      ensures old(Pg(View(), p)).pfn == -1 && old(book.frames) == [] && out != AllKernel ==> Stops(UsedVm(old(View()), p), old(clock), k, w)
      ensures out == SwapFull <==>
                && old(Pg(View(), p)).pfn == -1 && old(book.frames) == [] && out != AllKernel
                && old(book.slots) == [] && DirtyAt(UsedVm(old(View()), p), old(clock), k)
      ensures out == Done ==> Valid() && SameShown(old(View()), old(book), View(), book) && book.live == old(book.live)
      ensures out == Done ==> Pg(View(), p).pfn != -1 && Pg(View(), p).use
      ensures out == Done ==> held == old(held) && kern == old(kern) && image == old(image)
      ensures out == Done && old(Pg(View(), p)).pfn == -1 && old(book.frames) != [] ==>
                PagedIn(UsedVm(old(View()), p), old(book), View(), old(book.frames)[0], p) && clock == old(clock)
      ensures out == Done && old(Pg(View(), p)).pfn == -1 && old(book.frames) == [] ==>
                ByClock(UsedVm(old(View()), p), old(book), old(clock), k, w, p, View(), clock) && book.frames == []
      ensures old(Pg(View(), p)).pfn != -1 ==> clock == old(clock)
    {
      hide Owned, DoubleList, Chain, SameShown, Freed, IsUser, Stops, CoreMap.Linked, DirtyAt, FillVm, Runs, PagedIn, Evicted, Swept,
        TakeVm, ByClock, Turn, ClockAt;
      ghost var m, b, c := View(), book, clock;
      ClockBound();
      k, w := 0, 0;
      PageFacts(m, b, -1, p);
      UsedStep(m, b, p);
      if pages[p].valid && pages[p].pfn != -1 {
        pages := pages[p := pages[p].(use := true)];
        return Done, 0, 0;
      }
      pages := pages[p := pages[p].(use := true)];
      var f;
      out, f, k, w := GetPpage();
      UsedUser(m, p);
      if out != Done {
        return;
      }
      ghost var m2, b2 := View(), book;
      FreedFacts(UsedVm(m, p), b, m2, b2, f, p);
      Load(p, f);
      FillStep(m2, b2, f, p);
      FillFacts(m2, f, p);
      SameThrice(m, b, UsedVm(m, p), m2, b2, View(), book);
      UsedPage(m, p);
      if b.frames == [] {
        ByClockIs(UsedVm(m, p), b, c, k, w, p, m2, b2);
      } else {
        PagedInByPop(UsedVm(m, p), b, p);
      }
    }

    // A store by a process to a page in memory that its segment lets it write.
    method UserWrite(p: nat, d: Data)
      requires Valid() && p in book.live && Pg(View(), p).pfn != -1 && Pg(View(), p).dirty
      modifies this`phys
      ensures Valid() && Shown(View(), p) == d
      ensures forall q :: q in book.live && q != p ==> Shown(View(), q) == old(Shown(View(), q))
    {
      hide Owned, DoubleList, Chain, CoreMap.Linked, Runs, Shown;
      PageFacts(View(), book, -1, p);
      WriteStep(View(), book, p, d);
      phys := phys[pages[p].pfn := d];
    }

    // A store by the kernel to one of its frames.
    method KernelWrite(f: nat, d: Data)
      requires Valid() && low <= f < size && KernOf(View(), f) > 0
      modifies this`phys
      ensures Valid() && SameShown(old(View()), book, View(), book) && phys == old(phys)[f := d]
    {
      hide Owned, DoubleList, Chain, CoreMap.Linked, Runs, Shown, SameShown;
      ShapeOf(View(), book, -1);
      ScribbleStep(View(), book, -1, f, d);
      phys := phys[f := d];
    }

    // ---- Kernel requests ----

    // The search of cm_request_kframes: the first num consecutive frames that are not
    // the kernel's, or -1.
    method FindRun(num: nat) returns (frame: int)
      requires low <= size == |kern|
      ensures frame == -1 ==> forall i: nat :: low <= i && i + num <= size ==> !Idle(kern, i, num)
      ensures frame != -1 ==> low <= frame && Idle(kern, frame, num)
      ensures frame != -1 ==> forall i: nat :: low <= i < frame ==> !Idle(kern, i, num)
    {
      frame := -1;
      var i := low;
      while i + num <= size
        invariant low <= i && frame == -1
        invariant forall x: nat :: low <= x < i ==> !Idle(kern, x, num)
      {
        frame := i;
        var j := 0;
        while j < num
          invariant 0 <= j <= num && frame == i
          invariant forall x :: i <= x < i + j ==> kern[x] == 0
        {
          if kern[i + j] > 0 {
            frame := -1;
            break;
          }
          j := j + 1;
        }
        if frame != -1 {
          return;
        }
        i := i + 1;
      }
    }

    // The marking loop of cm_request_kframes.
    method MarkRun(frame: nat, num: nat)
      requires 0 < num && frame + num <= |kern|
      modifies this`kern
      ensures kern == Marked(old(kern), frame, num)
    {
      ghost var k0 := kern;
      for i := frame to frame + num
        invariant |kern| == |k0| && forall g :: 0 <= g < |k0| ==> kern[g] == if frame <= g < i then 1 else k0[g]
      {
        kern := kern[i := 1];
      }
      kern := kern[frame := num];
    }

    // The last loop of cm_request_kframes, for one frame: off the free list, or its page
    // out. Until its turn comes, a frame of the run counts as what it was: kv.
    method ClaimFrame(i: nat, ghost kv: seq<nat>) returns (ok: bool)
      requires Linked() && Owned(View().(kern := kv), book, -1) && low <= i < size && |kern| == size && kern[i] > 0
      requires KernOf(View().(kern := kv), i) == 0
      modifies this`next, this`prev, this`head, this`last, this`free, this`kern, this`book
      modifies this`pages, this`pd, this`swap, this`freePages
      ensures ok <==> !(old(WritableIn(View(), i)) && old(book.slots) == [])
      ensures ok ==> Linked() && kern == if old(FreeAt(View(), i)) then old(kern)[i := 1] else old(kern)
      ensures ok ==> Claimed(old(View()).(kern := kv), old(book), View().(kern := kv), book, i, kern[i])
      ensures ok ==> Cleared(old(View()), old(book), View(), book, i, i + 1)
    {
      hide Owned, DoubleList, Chain, SameShown, Evicted, Claimed, Cleared, CoreMap.Linked;
      ghost var m, b := View().(kern := kv), book;
      ShapeOf(m, b, -1);
      if free[i] {
        ghost var k := ListedAt(m, b, i);
        FreeFrameListRemove(i, k);
        ClaimedFree(m, b, i, k);
        ClearedFree(m, b, View().(kern := kv), book, i, k);
        assert View().(kern := kv) == TakeVm(m, i).(kern := kv);
        ok := true;
      } else {
        Occupied(m, b, i);
        FreeKern(View(), kv);
        ok := FreeCore(i, pd[i], kv);
        if ok {
          ClaimedUser(m, b, View().(kern := kv), book, i, kern[i]);
          ClearedUser(m, b, View().(kern := kv), book, i);
        }
      }
      if ok { ClearedKern(old(View()), b, View(), book, i, i + 1, kv, kv); }
    }

    // cm_request_kframes: the first num consecutive frames the kernel does not have.
    method RequestKframes(num: nat) returns (out: Outcome, frame: nat)
      requires Valid() && num > 0
      modifies this
      ensures out == Done || out == NoRun || out == SwapFull
      ensures out == NoRun <==> forall i: nat :: low <= i && i + num <= size ==> !Idle(old(kern), i, num)
      ensures out == SwapFull <==> out != NoRun && Writables(old(View()), frame, num) > |old(book.slots)|
      ensures out == Done ==> Valid() && SameShown(old(View()), old(book), View(), book) && book.live == old(book.live) && image == old(image)
      ensures out != NoRun ==> low <= frame && Idle(old(kern), frame, num) && forall i: nat :: low <= i < frame ==> !Idle(old(kern), i, num)
      ensures out == Done ==> held == old(held)[frame := Request(num, old(FreeAt(View(), frame)))]
      ensures out == Done ==> Apart(old(held), frame, num) == old(held)
      ensures out == Done ==> |kern| == |old(kern)|
      ensures out == Done ==> forall g :: 0 <= g < |kern| ==> kern[g] == ClaimedCount(old(View()), frame, num, g)
      ensures out == Done ==> Cleared(old(View()), old(book), View(), book, frame, frame + num) && clock == old(clock)
      ensures out == Done ==> |book.slots| + Writables(old(View()), frame, num) == |old(book.slots)|
    {
      hide Owned, DoubleList, Chain, SameShown, Claimed, Cleared, CoreMap.Linked, ClaimedUpTo, Runs, Marked, Idle;
      ghost var m, b := View(), book;
      ShapeOf(m, b, -1);
      ClockBound();
      var found := FindRun(num);
      if found == -1 {
        return NoRun, 0;
      }
      frame := found;
      IdleBound(kern, frame, num);
      MarkRun(frame, num);
      ClaimStarts(m, b, frame, num);
      ClearedNone(m, b, kern, frame);
      for i := frame to frame + num
        invariant Linked() && ClaimedUpTo(m, b, View(), book, frame, num, i) && held == old(held)
        invariant Cleared(m, b, View(), book, frame, i) && clock == old(clock)
      {
        ClaimNow(m, b, View(), book, frame, num, i);
        ghost var m1, b1 := View(), book;
        ghost var kv := Mixed(m.kern, kern, frame, i);
        var ok := ClaimFrame(i, kv);
        if !ok {
          WritablesMore(m, frame, i + 1 - frame, num);
          return SwapFull, frame;
        }
        ClaimNext(m, b, m1, b1, View(), book, frame, num, i);
        ClearedTwice(m, b, m1, b1, View(), book, frame, i, i + 1);
      }
      ClaimEnds(m, b, View(), book, frame, num, held);
      held := held[frame := Request(num, FreeAt(m, frame))];
      out := Done;
    }

    // cm_release_kframes: as many frames as the first one records go back, in order. It
    // asserts that all of them are the kernel's; whose they are it does not ask.
    method ReleaseKframes(frame: nat) returns (out: Outcome, returned: nat)
      requires Valid() && frame < size
      modifies this
      ensures out == if Releasable(old(View()), frame) then Done else BadRelease
      ensures out == Done ==> Valid() && SameShown(old(View()), old(book), View(), book) && book.live == old(book.live) && image == old(image)
      ensures out == Done ==> returned == KernOf(old(View()), frame) && held == Apart(old(held), frame, returned)
      ensures out == Done && frame in old(held) ==> held == old(held) - {frame}
      ensures out == Done && frame in old(held) ==> returned == if old(held)[frame].firstFree then 1 else old(held)[frame].num
      ensures out == Done ==> book == old(book).(frames := old(book.frames) + Range(frame, returned))
      ensures out == Done ==> pages == old(pages) && clock == old(clock)
      ensures out == Done ==> |kern| == |old(kern)| && forall g :: 0 <= g < |kern| ==> kern[g] == if frame <= g < frame + returned then 0 else old(kern)[g]
    {
      hide Owned, DoubleList, Chain, SameShown, CoreMap.Linked, Runs, Apart;
      ghost var m, b, held0 := View(), book, held;
      ShapeOf(m, b, -1);
      returned := kern[frame];
      if returned == 0 {
        return BadRelease, 0;
      }
      CountFits(kern, low, held, frame);
      SameSelf(m, b);
      assert b.frames == b.frames + Range(frame, 0);
      for i := frame to frame + returned
        invariant Linked() && Owned(View(), book, -1) && SameShown(m, b, View(), book) && held == held0
        invariant image == m.image && pages == m.pages && clock == old(clock)
        invariant book == b.(frames := b.frames + Range(frame, i - frame))
        invariant |kern| == size && forall g :: 0 <= g < size ==> kern[g] == if frame <= g < i then 0 else m.kern[g]
        invariant forall g :: frame <= g < i ==> m.kern[g] > 0
        invariant frame < i ==> low <= frame
      {
        if kern[i] == 0 || frame < low {
          assert kern[i] == KernOf(m, i);
          return BadRelease, 0;
        }
        ghost var m1, b1 := View(), book;
        KernelNotFree(m1, b1, i);
        FromKernel(m1, b1, i);
        GivenBack(m1, b1, i);
        FreeFrameListAddBack(i);
        SameTwice(m, b, m1, b1, View(), book);
        assert Range(frame, i - frame) + [i] == Range(frame, i + 1 - frame);
      }
      FewerRuns(m.kern, kern, low, held, frame, returned);
      if frame in held {
        RunFacts(m.kern, low, held, frame);
        OneFewer(m.kern, low, held, frame);
      }
      held := Apart(held, frame, returned);
      out := Done;
    }

    // ---- Page tables ----

    // pt_create: one page_detail for each page of the segment, never loaded. data is
    // what the executable holds for them.
    method PtCreate(ids: seq<nat>, vbase: nat, writeable: bool, data: seq<Data>)
      requires Valid() && Distinct(ids) && |data| == |ids| && forall i :: 0 <= i < |ids| ==> ids[i] !in book.live
      modifies this`pages, this`image, this`book
      ensures Valid() && book.live == old(book.live) + Members(ids)
      ensures forall i :: 0 <= i < |ids| ==> Shown(View(), ids[i]) == data[i]
      ensures forall i :: 0 <= i < |ids| ==> Pg(View(), ids[i]) == Page(vbase + 4096 * i, -1, -1, false, writeable, false)
      ensures forall p :: p in old(book.live) ==> Shown(View(), p) == old(Shown(View(), p)) && Pg(View(), p) == old(Pg(View(), p))
    {
      hide Owned, DoubleList, Chain, Runs, Shown, Pg;
      ghost var m, b := View(), book;
      ghost var live := book.live;
      for i := 0 to |ids|
        invariant Linked() && Owned(View(), book, -1) && Runs(kern, low, held)
        invariant book == b.(live := live + Members(ids[..i]))
        invariant forall j :: 0 <= j < i ==> Shown(View(), ids[j]) == data[j] && Pg(View(), ids[j]) == NewPage(vbase + 4096 * j, writeable)
        invariant forall p :: p in live ==> Shown(View(), p) == Shown(m, p) && Pg(View(), p) == Pg(m, p)
      {
        MembersNext(ids, i);
        NewStep(View(), book, ids[i], vbase + 4096 * i, writeable, data[i]);
        NewPg(View(), ids[i], vbase + 4096 * i, writeable, data[i]);
        pages := pages[ids[i] := Page(vbase + 4096 * i, -1, -1, false, writeable, false)];
        image := image[ids[i] := data[i]];
        book := book.(live := book.live + {ids[i]});
      }
      assert ids[..|ids|] == ids;
    }

    // cm_release_frame of a frame whose page is gone.
    method ReleaseFrame(frame: nat)
      requires Linked() && low <= frame < size && Owned(View(), book, frame) && KernOf(View(), frame) == 0
      modifies this`next, this`prev, this`head, this`last, this`free, this`kern, this`book
      ensures Linked() && Owned(View(), book, -1) && kern == old(kern)
      ensures book == old(book).(frames := [frame] + old(book.frames)) && free == old(free)[frame := true]
    {
      hide Owned, DoubleList, Chain, CoreMap.Linked;
      PutBack(View(), book, frame);
      FreeFrameListAdd(frame);
    }

    // One page of as_free_segments: its frame or its slot goes back.
    method ReleasePage(p: nat)
      requires Linked() && Owned(View(), book, -1) && p in book.live
      modifies this`next, this`prev, this`head, this`last, this`free, this`kern, this`slotNext, this`freePages, this`book
      ensures Linked() && Owned(View(), book, -1) && book.live == old(book.live) - {p} && kern == old(kern)
      ensures book.frames == if pages[p].pfn != -1 then [pages[p].pfn] + old(book.frames) else old(book.frames)
      ensures book.slots == if pages[p].sfn != -1 then [pages[p].sfn] + old(book.slots) else old(book.slots)
    {
      hide Owned, DoubleList, Chain;
      ghost var m, b := View(), book;
      PageFacts(m, b, -1, p);
      if pages[p].pfn != -1 {
        InMemory(m, b, p);
        book := book.(live := book.live - {p});
        ReleaseFrame(pages[p].pfn);
      }
      if pages[p].sfn != -1 {
        DropSlotPage(m, b, p);
        book := book.(live := book.live - {p});
        SwapFreePage(pages[p].sfn);
      }
      if pages[p].pfn == -1 && pages[p].sfn == -1 {
        DropFramePage(m, b, p);
        book := book.(live := book.live - {p});
      }
    }

    // The inner loop of as_free_segments and pt_destroy.
    method FreePageTable(ids: seq<nat>)
      requires Valid() && Distinct(ids) && Members(ids) <= book.live
      modifies this`next, this`prev, this`head, this`last, this`free, this`kern, this`slotNext, this`freePages, this`book, this`pages, this`image
      ensures Valid() && book.live == old(book.live) - Members(ids) && kern == old(kern)
      ensures SamePages(old(View()), View(), book.live)
    {
      hide Owned, DoubleList, Chain, CoreMap.Linked, Runs;
      ghost var live := book.live;
      for j := 0 to |ids|
        invariant Linked() && Owned(View(), book, -1) && kern == old(kern)
        invariant pages == old(pages) && image == old(image)
        invariant book.live == live - Members(ids[..j])
      {
        MembersNext(ids, j);
        assert ids[j] in Members(ids);
        ReleasePage(ids[j]);
      }
      assert ids[..|ids|] == ids;
      ForgetStep(View(), book, Members(ids));
      Forgotten(View(), Members(ids), book.live);
      pages := pages - Members(ids);
      image := image - Members(ids);
    }

    // as_free_segments: every page of the active segments goes.
    method FreeSegments(segs: seq<Segment>)
      requires Valid() && SegmentsApart(segs) && PagesOf(segs) <= book.live
      modifies this`next, this`prev, this`head, this`last, this`free, this`kern, this`slotNext, this`freePages, this`book, this`pages, this`image
      ensures Valid() && book.live == old(book.live) - PagesOf(segs) && kern == old(kern)
      ensures SamePages(old(View()), View(), book.live)
    {
      hide CoreMap.Valid, PagesOf, SamePages;
      ghost var live, m := book.live, View();
      SamePagesSelf(m, live);
      assert PagesOf(segs[..0]) == {} by { NoSegments(); }
      for i := 0 to |segs|
        invariant Valid() && kern == old(kern) && book.live == live - PagesOf(segs[..i])
        invariant SamePages(m, View(), book.live)
      {
        PagesNext(segs, i);
        if segs[i].active && segs[i].table {
          SegmentLive(segs, i, live);
          ghost var m1, live1 := View(), book.live;
          FreePageTable(segs[i].pages);
          SamePagesTwice(m, m1, View(), live1, book.live);
        }
      }
      assert segs[..|segs|] == segs;
    }
  }
}
