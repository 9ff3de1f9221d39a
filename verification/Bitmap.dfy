// Arrays of bits kept in bytes: the freemap's representation.
module Bitmaps {

  datatype Alloc = Found(index: nat) | NoSpace

  function Mask(offset: nat): bv8
    requires offset < 8
  {
    (1 as bv8) << offset
  }

  predicate TestBit(w: bv8, offset: nat)
    requires offset < 8
  {
    w & Mask(offset) != 0
  }

  lemma MaskValues()
    ensures Mask(0) == 1 && Mask(1) == 2 && Mask(2) == 4 && Mask(3) == 8
    ensures Mask(4) == 16 && Mask(5) == 32 && Mask(6) == 64 && Mask(7) == 128
  {
  }

  lemma SetBit(w: bv8, i: nat, j: nat)
    requires i < 8 && j < 8
    ensures TestBit(w | Mask(i), j) <==> TestBit(w, j) || i == j
  {
    MaskValues();
  }

  lemma ClearBit(w: bv8, i: nat, j: nat)
    requires i < 8 && j < 8
    ensures TestBit(w & !Mask(i), j) <==> TestBit(w, j) && i != j
  {
    MaskValues();
  }

  lemma AllBits(w: bv8)
    ensures w == 0xff <==> forall k :: 0 <= k < 8 ==> TestBit(w, k)
  {
    MaskValues();
    assert w == 0xff || !TestBit(w, 0) || !TestBit(w, 1) || !TestBit(w, 2) || !TestBit(w, 3) ||
           !TestBit(w, 4) || !TestBit(w, 5) || !TestBit(w, 6) || !TestBit(w, 7);
  }

  predicate BitAt(s: seq<bv8>, i: nat)
    requires i < 8 * |s|
  {
    TestBit(s[i / 8], i % 8)
  }

  // The set the bytes stand for.
  ghost function BitsOf(s: seq<bv8>, nbits: nat): (r: set<nat>)
    ensures forall i: nat {:trigger i in r} :: i in r <==> i < nbits && i < 8 * |s| && BitAt(s, i)
  {
    set i: nat | i < nbits && i < 8 * |s| && BitAt(s, i)
  }

  // The bits past the last one are all in use.
  ghost predicate Leftover(s: seq<bv8>, nbits: nat) {
    forall i: nat :: nbits <= i < 8 * |s| ==> BitAt(s, i)
  }

  lemma BitAtUpdate(s: seq<bv8>, i: nat, w: bv8, j: nat)
    requires i < 8 * |s| && j < 8 * |s|
    requires w == s[i / 8] | Mask(i % 8) || w == s[i / 8] & !Mask(i % 8)
    ensures w == s[i / 8] | Mask(i % 8) ==> (BitAt(s[i / 8 := w], j) <==> BitAt(s, j) || i == j)
    ensures w == s[i / 8] & !Mask(i % 8) ==> (BitAt(s[i / 8 := w], j) <==> BitAt(s, j) && i != j)
  {
    hide TestBit, Mask;
    SetBit(s[i / 8], i % 8, j % 8);
    ClearBit(s[i / 8], i % 8, j % 8);
    assert i / 8 == j / 8 && i % 8 == j % 8 ==> i == j;
  }

  lemma BitsOfSet(s: seq<bv8>, nbits: nat, i: nat)
    requires i < 8 * |s| && i < nbits
    ensures BitsOf(s[i / 8 := s[i / 8] | Mask(i % 8)], nbits) == BitsOf(s, nbits) + {i}
    ensures Leftover(s, nbits) ==> Leftover(s[i / 8 := s[i / 8] | Mask(i % 8)], nbits)
  {
    hide TestBit, Mask, BitAt;
    var s' := s[i / 8 := s[i / 8] | Mask(i % 8)];
    forall j | 0 <= j < 8 * |s| ensures BitAt(s', j) <==> BitAt(s, j) || i == j {
      BitAtUpdate(s, i, s[i / 8] | Mask(i % 8), j);
    }
  }

  lemma BitsOfClear(s: seq<bv8>, nbits: nat, i: nat)
    requires i < 8 * |s| && i < nbits
    ensures BitsOf(s[i / 8 := s[i / 8] & !Mask(i % 8)], nbits) == BitsOf(s, nbits) - {i}
    ensures Leftover(s, nbits) ==> Leftover(s[i / 8 := s[i / 8] & !Mask(i % 8)], nbits)
  {
    hide TestBit, Mask, BitAt;
    var s' := s[i / 8 := s[i / 8] & !Mask(i % 8)];
    forall j | 0 <= j < 8 * |s| ensures BitAt(s', j) <==> BitAt(s, j) && i != j {
      BitAtUpdate(s, i, s[i / 8] & !Mask(i % 8), j);
    }
  }

  lemma AllClear(s: seq<bv8>)
    requires forall w :: w in s ==> w == 0
    ensures forall i: nat :: i < 8 * |s| ==> !BitAt(s, i)
  {
    forall i: nat | i < 8 * |s| ensures !BitAt(s, i) {
      assert s[i / 8] in s;
    }
  }

  // A byte of all ones is eight bits in use.
  lemma FullByte(s: seq<bv8>, ix: nat)
    requires ix < |s|
    ensures s[ix] == 0xff <==> forall k :: 8 * ix <= k < 8 * ix + 8 ==> BitAt(s, k)
  {
    AllBits(s[ix]);
    hide TestBit, Mask;
    forall k | 8 * ix <= k < 8 * ix + 8 ensures k / 8 == ix && k % 8 == k - 8 * ix {}
    if forall k :: 8 * ix <= k < 8 * ix + 8 ==> BitAt(s, k) {
      forall o | 0 <= o < 8 ensures TestBit(s[ix], o) {
        assert BitAt(s, 8 * ix + o);
      }
    }
  }

  class Bitmap {
    const nbits: nat
    const v: array<bv8>

    // Enough bytes, and the bits past the last one all in use.
    ghost predicate Valid()
      reads v
    {
      && v.Length == (nbits + 7) / 8
      && Leftover(v[..], nbits)
    }

    ghost function Bits(): (r: set<nat>)
      reads v
    {
      BitsOf(v[..], nbits)
    }

    // bitmap_create: nothing marked, the leftover bits of the last byte set.
    constructor (n: nat)
      ensures nbits == n && Valid() && fresh(v) && Bits() == {}
    {
      nbits := n;
      var words := (n + 7) / 8;
      v := new bv8[words](_ => 0);
      new;
      assert forall w | w in v[..] :: w == 0;
      AllClear(v[..]);
      if n / 8 < words {
        assert n / 8 == words - 1 && 0 < n - 8 * (words - 1) < 8;
        MarkLeftover();
      }
    }

    // The leftover bits, one at a time.
    method MarkLeftover()
      requires v.Length == (nbits + 7) / 8 && nbits % 8 != 0
      requires forall i: nat :: i < 8 * v.Length ==> !BitAt(v[..], i)
      modifies v
      ensures Valid() && Bits() == {}
    {
      var ix := v.Length - 1;
      var j := nbits - 8 * ix;
      while j < 8
        invariant nbits - 8 * ix <= j <= 8
        invariant forall i: nat :: i < 8 * v.Length ==> (BitAt(v[..], i) <==> nbits <= i < 8 * ix + j)
      {
        ghost var s := v[..];
        ghost var i := 8 * ix + j;
        v[ix] := v[ix] | Mask(j);
        assert v[..] == s[ix := s[ix] | Mask(j)];
        forall k: nat | k < 8 * v.Length ensures BitAt(v[..], k) <==> nbits <= k < 8 * ix + j + 1 {
          hide BitAt, Mask;
          assert i / 8 == ix && i % 8 == j;
          BitAtUpdate(s, i, s[ix] | Mask(j), k);
        }
        j := j + 1;
      }
    }

    // bitmap_alloc: the lowest clear bit, or NoSpace exactly when every bit is set.
    method Alloc() returns (r: Alloc)
      requires Valid()
      modifies v
      ensures Valid()
      ensures r.Found? ==> r.index < nbits && r.index !in old(Bits()) && Bits() == old(Bits()) + {r.index}
      ensures r.Found? ==> forall i: nat :: i < r.index ==> i in old(Bits())
      ensures r.NoSpace? ==> Bits() == old(Bits()) && forall i: nat :: i < nbits ==> i in Bits()
    {
      var ix := 0;
      while ix < v.Length
        invariant 0 <= ix <= v.Length
        invariant v[..] == old(v[..])
        invariant forall i :: 0 <= i < 8 * ix ==> BitAt(v[..], i)
      {
        FullByte(v[..], ix);
        if v[ix] != 0xff {
          var k := SearchByte(ix);
          TakeBit(8 * ix + k);
          return Found(8 * ix + k);
        }
        ix := ix + 1;
      }
      return NoSpace;
    }

    method SearchByte(ix: nat) returns (offset: nat)
      requires ix < v.Length && v[ix] != 0xff
      ensures offset < 8 && !TestBit(v[ix], offset)
      ensures forall o :: 0 <= o < offset ==> TestBit(v[ix], o)
    {
      AllBits(v[ix]);
      offset := 0;
      while offset < 8
        invariant offset <= 8
        invariant forall o :: 0 <= o < offset ==> TestBit(v[ix], o)
      {
        if v[ix] & Mask(offset) == 0 {
          return;
        }
        offset := offset + 1;
      }
      assert false;
    }

    method TakeBit(i: nat)
      requires Valid() && i < nbits && i !in Bits()
      modifies v
      ensures Valid() && Bits() == old(Bits()) + {i}
    {
      ghost var s := v[..];
      v[i / 8] := v[i / 8] | Mask(i % 8);
      assert v[..] == s[i / 8 := s[i / 8] | Mask(i % 8)];
      BitsOfSet(s, nbits, i);
    }

    // bitmap_mark: the bit must be clear.
    method Mark(i: nat)
      requires Valid() && i < nbits && i !in Bits()
      modifies v
      ensures Valid() && Bits() == old(Bits()) + {i}
    {
      assert v[i / 8] & Mask(i % 8) == 0 by { assert !BitAt(v[..], i); }
      TakeBit(i);
    }

    // bitmap_unmark: the bit must be set.
    method Unmark(i: nat)
      requires Valid() && i < nbits && i in Bits()
      modifies v
      ensures Valid() && Bits() == old(Bits()) - {i}
    {
      ghost var s := v[..];
      assert BitAt(s, i);
      v[i / 8] := v[i / 8] & !Mask(i % 8);
      assert v[..] == s[i / 8 := s[i / 8] & !Mask(i % 8)];
      BitsOfClear(s, nbits, i);
    }

    // bitmap_isset
    method IsSet(i: nat) returns (set_: bool)
      requires Valid() && i < nbits
      ensures set_ <==> i in Bits()
    {
      set_ := v[i / 8] & Mask(i % 8) != 0;
      assert set_ == BitAt(v[..], i);
    }
  }
}
