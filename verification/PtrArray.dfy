// The growing array of pointers.
module PtrArrays {

  class PtrArray {
    var num: nat
    var max: nat
    var v: array?<nat>

    ghost predicate Valid()
      reads this
    {
      num <= max && (v == null ==> max == 0) && (v != null ==> v.Length == max)
    }

    ghost function Contents(): seq<nat>
      requires Valid()
      reads this, v
    {
      if v == null then [] else v[..num]
    }

    // array_create
    constructor ()
      ensures Valid() && Contents() == [] && v == null && max == 0
    {
      num, max, v := 0, 0, null;
    }

    // array_getguy
    method GetGuy(i: nat) returns (x: nat)
      requires Valid() && i < num
      ensures i < |Contents()| && x == Contents()[i]
    {
      x := v[i];
    }

    // array_preallocate: space for n at least. mem says whether kmalloc has memory.
    method Preallocate(n: nat, mem: bool) returns (ok: bool)
      requires Valid()
      modifies this
      ensures Valid() && ok == mem && Contents() == old(Contents()) && num == old(num)
      ensures ok ==> v != null && fresh(v) && max >= n && max >= old(max)
      ensures max == old(max) || max <= 2 * n
      ensures ok && old(max) < n <= 2 * (old(max) + 1) ==> max == 2 * (old(max) + 1)
      ensures !ok ==> v == old(v) && max == old(max)
    {
      var newmax := max;
      while n > newmax
        invariant newmax >= max && (newmax == max || newmax <= 2 * n)
        invariant newmax == max || newmax == 2 * (max + 1) || 2 * (max + 1) < n
      {
        newmax := (newmax + 1) * 2;
      }
      if !mem {
        return false;
      }
      var newv := new nat[newmax];
      ghost var s := Contents();
      max := newmax;
      for i := 0 to num
        invariant v == old(v) && num == old(num) && max == newmax && (v != null ==> v[..] == old(if v == null then [] else v[..]))
        invariant forall k :: 0 <= k < i ==> newv[k] == s[k]
      {
        newv[i] := v[i];
      }
      v := newv;
      return true;
    }

    // array_setsize: what is kept of the old contents stays. An emptied array with more
    // than 16 slots gives its storage back.
    method SetSize(n: nat, mem: bool) returns (ok: bool)
      requires Valid()
      modifies this
      ensures Valid() && (ok <==> mem || n <= old(max)) && (v == old(v) || v == null || fresh(v))
      ensures !ok ==> num == old(num) && v == old(v) && max == old(max)
      ensures ok ==> num == n && |Contents()| == n && forall i :: 0 <= i < n && i < old(num) ==> Contents()[i] == old(Contents())[i]
      ensures ok && n > 0 ==> max >= old(max) && v != null && (n <= old(max) ==> v == old(v) && max == old(max))
      ensures ok && n == 0 ==> max == if old(max) > 16 then 0 else old(max)
      ensures max == old(max) || max <= 2 * n
      ensures ok && old(max) < n <= 2 * (old(max) + 1) ==> max == 2 * (old(max) + 1)
    {
      if n > max {
        ok := Preallocate(n, mem);
        if !ok {
          return;
        }
      } else if n == 0 && max > 16 {
        v := null;
        max := 0;
      }
      num := n;
      ok := true;
    }

    // array_add: the call needs memory exactly when all slots are used.
    method Add(x: nat, mem: bool) returns (ok: bool)
      requires Valid()
      modifies this, v
      ensures Valid() && (ok <==> mem || old(num) < old(max)) && (v == old(v) || (v != null && fresh(v)))
      ensures Contents() == if ok then old(Contents()) + [x] else old(Contents())
      ensures max >= old(max) && (!ok || old(num) < old(max) ==> max == old(max)) && (ok ==> max > 0)
      ensures ok && old(num) == old(max) ==> max == 2 * (old(max) + 1)
    {
      var ix := num;
      ok := SetSize(ix + 1, mem);
      if ok {
        v[ix] := x;
        assert v[..num][..ix] == old(Contents());
      }
    }

    // array_remove: the later entries move down by one.
    method Remove(index: nat)
      requires Valid() && index < num
      modifies this`num, v
      ensures Valid() && Contents() == old(Contents())[..index] + old(Contents())[index + 1..]
      ensures max == old(max) && num == old(num) - 1
    {
      // memmove
      for i := index to num - 1
        invariant num == old(num)
        invariant forall k :: 0 <= k < index ==> v[k] == old(v[k])
        invariant forall k :: index <= k < i ==> v[k] == old(v[k + 1])
        invariant forall k :: i <= k < num ==> v[k] == old(v[k])
      {
        v[i] := v[i + 1];
      }
      num := num - 1;
    }
  }
}
