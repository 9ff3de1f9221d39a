// The growing ring buffer of pointers. It behaves as a sequence.
module RingQueues {

  // Slot i places after r in a ring of n.
  function At(r: nat, i: nat, n: nat): nat {
    if n <= r + i then r + i - n else r + i
  }

  function Len(r: nat, w: nat, n: nat): nat {
    if r <= w then w - r else if r <= w + n then w + n - r else 0
  }

  lemma NextSlot(i: nat, n: nat)
    requires i < n
    ensures (i + 1) % n == At(i, 1, n) < n
  {
    if i + 1 == n { assert n % n == 0; } else { SmallMod(i + 1, n); }
  }

  lemma SmallMod(x: nat, n: nat)
    requires x < n
    ensures x % n == x
  {
  }

  // The entries of a ring, oldest first.
  ghost function Entries(data: seq<nat>, r: nat, w: nat): (s: seq<nat>)
    requires r < |data| && w < |data|
    ensures |s| == Len(r, w, |data|) < |data|
    ensures forall i :: 0 <= i < |s| ==> s[i] == data[At(r, i, |data|)]
  {
    seq(Len(r, w, |data|), i requires 0 <= i < Len(r, w, |data|) => data[At(r, i, |data|)])
  }

  // One slot always stays empty: a ring of n holds n - 1 entries.
  lemma FullAt(r: nat, w: nat, n: nat)
    requires r < n && w < n
    ensures At(w, 1, n) == r <==> Len(r, w, n) == n - 1
    ensures r == w <==> Len(r, w, n) == 0
    ensures Len(r, w, n) < n - 1 ==> Len(r, At(w, 1, n), n) == Len(r, w, n) + 1
    ensures Len(r, w, n) > 0 ==> Len(At(r, 1, n), w, n) == Len(r, w, n) - 1
  {
  }

  lemma Appended(data: seq<nat>, r: nat, w: nat, x: nat)
    requires r < |data| && w < |data| && Len(r, w, |data|) < |data| - 1
    ensures At(w, 1, |data|) < |data|
    ensures Entries(data[w := x], r, At(w, 1, |data|)) == Entries(data, r, w) + [x]
  {
    FullAt(r, w, |data|);
  }

  lemma Removed(data: seq<nat>, r: nat, w: nat)
    requires r < |data| && w < |data| && r != w
    ensures At(r, 1, |data|) < |data| && Entries(data, r, w) != [] && Entries(data, r, w)[0] == data[r]
    ensures Entries(data, At(r, 1, |data|), w) == Entries(data, r, w)[1..]
  {
    FullAt(r, w, |data|);
  }

  // The size q_grow chooses: doubled until it reaches the target, and no further.
  method DoubleUpTo(size: nat, target: nat) returns (n: nat)
    requires size > 0
    ensures n >= size && n >= target && (n == size || n < 2 * target)
    ensures size < target <= 2 * size ==> n == 2 * size
  {
    n := size;
    while n < target
      invariant n >= size && (n == size || n < 2 * target)
      invariant n == size || n == 2 * size || 2 * size < target
      decreases target - n
    {
      n := n * 2;
    }
  }

  class Queue {
    var size: nat
    var nextwrite: nat
    var nextread: nat
    var data: array<nat>

    ghost predicate Valid()
      reads this
    {
      size > 0 && data.Length == size && nextread < size && nextwrite < size
    }

    ghost function Contents(): seq<nat>
      requires Valid()
      reads this, data
    {
      Entries(data[..], nextread, nextwrite)
    }

    // q_create
    constructor (n: nat)
      requires n > 0
      ensures Valid() && Contents() == [] && size == n && fresh(data)
    {
      size := n;
      data := new nat[n];
      nextread, nextwrite := 0, 0;
    }

    // q_empty
    method Empty() returns (e: bool)
      requires Valid()
      ensures e <==> Contents() == []
    {
      e := nextwrite == nextread;
    }

    // q_addtail. mem says whether kmalloc has memory to give; the ring is grown only if
    // it is full, and only then can the call fail.
    method Addtail(x: nat, mem: bool) returns (ok: bool)
      requires Valid()
      modifies this, data
      ensures Valid() && (data == old(data) || fresh(data))
      ensures ok <==> mem || |old(Contents())| < old(size) - 1
      ensures Contents() == if ok then old(Contents()) + [x] else old(Contents())
      ensures |old(Contents())| < old(size) - 1 ==> data == old(data) && size == old(size) && nextread == old(nextread)
      ensures size >= old(size) && (!ok ==> size == old(size))
      ensures ok && |old(Contents())| == old(size) - 1 ==> size == 2 * old(size)
      decreases if nextread < size && nextwrite < size && Len(nextread, nextwrite, size) < size - 1 then 0 else 2
    {
      FullAt(nextread, nextwrite, size);
      NextSlot(nextwrite, size);
      var nextnext := (nextwrite + 1) % size;
      if nextnext == nextread {
        var grown := Grow(size + 1, mem);
        if !grown {
          return false;
        }
        NextSlot(nextwrite, size);
        nextnext := (nextwrite + 1) % size;
      }
      Appended(data[..], nextread, nextwrite, x);
      data[nextwrite] := x;
      nextwrite := nextnext;
      return true;
    }

    // q_grow: the entries move to a larger ring in order. The entries are added back
    // with q_addtail, which finds room every time.
    method Grow(target: nat, mem: bool) returns (ok: bool)
      requires Valid()
      modifies this
      ensures Valid() && ok == mem && Contents() == old(Contents())
      ensures ok ==> fresh(data) && size >= target && size >= old(size) && nextread == 0
      ensures ok ==> size == old(size) || size < 2 * target
      ensures ok && old(size) < target <= 2 * old(size) ==> size == 2 * old(size)
      ensures !ok ==> data == old(data) && size == old(size)
      decreases 1
    {
      hide Entries;
      var olddata, onr, onw, osize := data, nextread, nextwrite, size;
      ghost var s, d := Contents(), data[..];
      var nsize := DoubleUpTo(size, target);
      if !mem {
        return false;
      }
      var ndata := new nat[nsize];
      size := nsize;
      data := ndata;
      nextread, nextwrite := 0, 0;
      var i := onr;
      ghost var k := 0;
      while i != onw
        invariant Valid() && data == ndata && size == nsize && nextread == 0 && olddata[..] == d
        invariant 0 <= k <= |s| && i == At(onr, k, osize) && i < osize && Contents() == s[..k]
        decreases |s| - k
      {
        FullAt(onr, onw, osize);
        assert k < |s| && s[k] == d[i];
        NextSlot(i, osize);
        var added := Addtail(olddata[i], false);
        assert added;
        assert s[..k] + [s[k]] == s[..k + 1];
        i := (i + 1) % osize;
        k := k + 1;
      }
      assert k == |s| && s[..k] == s;
      return true;
    }

    // q_preallocate
    method Preallocate(n: nat, mem: bool) returns (ok: bool)
      requires Valid()
      modifies this
      ensures Valid() && (data == old(data) || fresh(data)) && Contents() == old(Contents())
      ensures ok <==> mem || n <= old(size)
      ensures size >= old(size) && (ok ==> size >= n) && (n <= old(size) ==> size == old(size))
      ensures size == old(size) || size < 2 * n
    {
      ok := true;
      if n > size {
        ok := Grow(n, mem);
      }
    }

    // q_remhead
    method Remhead() returns (x: nat)
      requires Valid() && Contents() != []
      modifies this`nextread
      ensures Valid() && old(Contents()) == [x] + Contents()
    {
      Removed(data[..], nextread, nextwrite);
      NextSlot(nextread, size);
      x := data[nextread];
      nextread := (nextread + 1) % size;
    }
  }
}
