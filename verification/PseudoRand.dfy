// The Park-Miller generator with Schrage's decomposition.
module PseudoRand {

  // Arithmetic on this type is checked to stay in range.
  newtype int32 = x: int | -0x8000_0000 <= x < 0x8000_0000

  predicate IsSeed(s: int) {
    1 <= s <= 0x7fff_fffe
  }

  // What the generator is meant to compute.
  function Next(s: int): int {
    16807 * s % 0x7fff_ffff
  }

  // The multiplier has an inverse, so the step can be undone.
  function Prev(s: int): int {
    1407677000 * s % 0x7fff_ffff
  }

  lemma PrevNext(s: int)
    requires IsSeed(s)
    ensures Prev(Next(s)) == s
  {
    var q, n := 16807 * s / 0x7fff_ffff, Next(s);
    assert 16807 * s == 0x7fff_ffff * q + n;
    var k := 11017 * s - 1407677000 * q;
    assert 1407677000 * n == 0x7fff_ffff * k + s;
    Remainder(1407677000 * n, k, s);
  }

  lemma Remainder(x: int, k: int, s: int)
    requires x == 0x7fff_ffff * k + s && 0 <= s < 0x7fff_ffff
    ensures x % 0x7fff_ffff == s
  {
  }

  // From seed to seed, never 0.
  lemma NextIsSeed(s: int)
    requires IsSeed(s)
    ensures IsSeed(Next(s))
  {
    PrevNext(s);
  }

  lemma NextInjective(s: int, t: int)
    requires IsSeed(s) && IsSeed(t) && Next(s) == Next(t)
    ensures s == t
  {
    PrevNext(s);
    PrevNext(t);
  }

  // Splitting the seed keeps every intermediate small.
  lemma Schrage(s: int, hi: int, lo: int)
    requires IsSeed(s) && hi == s / 127773 && lo == s % 127773
    ensures 0 <= hi <= 16807 && 0 <= lo < 127773
    ensures -0x7fff_ffff < 16807 * lo - 2836 * hi < 0x7fff_ffff
    ensures Next(s) == var tmp := 16807 * lo - 2836 * hi; if tmp <= 0 then tmp + 0x7fff_ffff else tmp
  {
    assert s == 127773 * hi + lo;
    var tmp := 16807 * lo - 2836 * hi;
    assert 16807 * s == 0x7fff_ffff * hi + tmp;
    NextIsSeed(s);
    if tmp > 0 {
      Remainder(16807 * s, hi, tmp);
    } else if tmp < 0 {
      Remainder(16807 * s, hi - 1, tmp + 0x7fff_ffff);
    } else {
      Remainder(16807 * s, hi, 0);
    }
  }

  class PseudoRandom {
    var seed: int32

    constructor (s: int32)
      requires IsSeed(s as int)
      ensures seed == s
    {
      seed := s;
    }

    // pseudorand_random: at most randmax, MODULUS - 2.
    method Random() returns (r: int32)
      requires IsSeed(seed as int)
      modifies this
      ensures IsSeed(seed as int) && seed as int == Next(old(seed) as int)
      ensures r as int == seed as int - 1 && 0 <= r <= 0x7fff_fffd
    {
      ghost var s := seed as int;
      NextIsSeed(s);
      Schrage(s, s / 127773, s % 127773);
      var hi := seed / 127773;
      var lo := seed % 127773;
      var tmp := 16807 * lo - 2836 * hi;
      if tmp <= 0 {
        tmp := tmp + 0x7fff_ffff;
      }
      seed := tmp;
      return seed - 1;
    }
  }

  // The n-th seed after s.
  function Nth(s: int, n: nat): int {
    if n == 0 then s else Next(Nth(s, n - 1))
  }

  // Over every run the seed stays in range, and two runs from different seeds never meet.
  lemma {:induction false} NthKeeps(s: int, t: int, n: nat)
    requires IsSeed(s) && IsSeed(t)
    ensures IsSeed(Nth(s, n)) && IsSeed(Nth(t, n))
    ensures Nth(s, n) == Nth(t, n) ==> s == t
  {
    if n > 0 {
      NthKeeps(s, t, n - 1);
      NextIsSeed(Nth(s, n - 1));
      NextIsSeed(Nth(t, n - 1));
      if Nth(s, n) == Nth(t, n) { NextInjective(Nth(s, n - 1), Nth(t, n - 1)); }
    }
  }
}
