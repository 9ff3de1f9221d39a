// Kernel-space uio: one iovec over a kernel buffer, an object offset and a residue.
module Uios {
  import opened SfsLayout

  // The fields of a uio at one moment.
  datatype UioState = UioState(kbuf: seq<Byte>, base: nat, iovlen: nat, offset: nat, resid: nat)

  // The bytes still to move lie inside the buffer.
  predicate UioOk(u: UioState) {
    u.resid <= u.iovlen && u.base + u.iovlen <= |u.kbuf|
  }

  // u after m bytes moved, with the buffer as given.
  function Advance(u: UioState, m: nat, kbuf: seq<Byte>): UioState
    requires m <= u.resid && m <= u.iovlen
  {
    UioState(kbuf, u.base + m, u.iovlen - m, u.offset + m, u.resid - m)
  }

  // s with d written at position at.
  function Splice(s: seq<Byte>, at: nat, d: seq<Byte>): (r: seq<Byte>)
    requires at + |d| <= |s|
    ensures |r| == |s|
    ensures forall i :: 0 <= i < |s| ==> r[i] == if at <= i < at + |d| then d[i - at] else s[i]
  {
    s[..at] + d + s[at + |d|..]
  }

  function Zeros(n: nat): (r: seq<Byte>)
    ensures |r| == n && forall i :: 0 <= i < n ==> r[i] == 0
  {
    seq(n, _ => 0)
  }

  lemma SpliceTwice(s: seq<Byte>, at: nat, d1: seq<Byte>, d2: seq<Byte>)
    requires at + |d1| + |d2| <= |s|
    ensures Splice(Splice(s, at, d1), at + |d1|, d2) == Splice(s, at, d1 + d2)
  {
  }

  class Uio {
    var kbuf: seq<Byte>
    var base: nat
    var iovlen: nat
    var offset: nat
    var resid: nat
    const reading: bool

    // mk_kuio
    constructor (buf: seq<Byte>, pos: nat, rd: bool)
      ensures State() == UioState(buf, 0, |buf|, pos, |buf|) && reading == rd
      ensures UioOk(State())
    {
      kbuf, base, iovlen, offset, resid, reading := buf, 0, |buf|, pos, |buf|, rd;
    }

    ghost function State(): UioState
      reads this
    {
      UioState(kbuf, base, iovlen, offset, resid)
    }

    // uiomove, kernel case: min(n, resid) bytes pass between ptr and the buffer.
    // The caller asks for no more than the residue, unless the residue is the whole iovec.
    method Move(ptr: seq<Byte>, n: nat) returns (out: seq<Byte>)
      requires UioOk(State()) && n <= |ptr|
      requires n <= resid || iovlen == resid
      modifies this
      ensures UioOk(State())
      ensures var m := if n <= old(resid) then n else old(resid);
              && |out| == |ptr|
              && (reading ==> out == ptr && State() == Advance(old(State()), m, Splice(old(kbuf), old(base), ptr[..m])))
              && (!reading ==> out == Splice(ptr, 0, old(kbuf[base..base + m])) &&
                               State() == Advance(old(State()), m, old(kbuf)))
    {
      hide Splice;
      out := ptr;
      var left, at := n, 0;
      ghost var m := if n <= resid then n else resid;
      while left > 0 && resid > 0
        invariant left <= n && at == n - left && |out| == |ptr| && at <= m
        invariant at == 0 || at == m
        invariant UioOk(State())
        invariant at == 0 ==> out == ptr && State() == old(State())
        invariant at == m && reading ==> out == ptr
        invariant at == m && reading ==> State() == Advance(old(State()), m, Splice(old(kbuf), old(base), ptr[..m]))
        invariant at == m && !reading ==> out == Splice(ptr, 0, old(kbuf[base..base + m]))
        invariant at == m && !reading ==> State() == Advance(old(State()), m, old(kbuf))
      {
        var size := iovlen;
        if size > left {
          size := left;
        }
        // "uiomove: size reached 0"
        assert size != 0;
        if reading {
          kbuf := Splice(kbuf, base, out[at..at + size]);
          assert out[at..at + size] == ptr[..m];
        } else {
          out := Splice(out, at, kbuf[base..base + size]);
        }
        base := base + size;
        iovlen := iovlen - size;
        resid := resid - size;
        offset := offset + size;
        at := at + size;
        left := left - size;
      }
    }

    // uiomovezeros: sixteen zeros at a time.
    method MoveZeros(n: nat)
      requires UioOk(State()) && reading && n <= resid
      modifies this
      ensures UioOk(State())
      ensures State() == Advance(old(State()), n, Splice(old(kbuf), old(base), Zeros(n)))
    {
      hide Splice, Zeros;
      var zeros := Zeros(16);
      var left := n;
      assert Splice(kbuf, base, Zeros(0)) == kbuf;
      while left > 0
        invariant 0 <= left <= n && UioOk(State())
        invariant State() == Advance(old(State()), n - left, Splice(old(kbuf), old(base), Zeros(n - left)))
      {
        ghost var done := Zeros(n - left);
        var amt := 16;
        if amt > left {
          amt := left;
        }
        var _ := Move(zeros, amt);
        SpliceTwice(old(kbuf), old(base), done, zeros[..amt]);
        left := left - amt;
        assert done + zeros[..amt] == Zeros(n - left);
      }
    }
  }
}
