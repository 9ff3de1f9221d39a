// Sequences of distinct numbers, as the links of a list spell them out.
module Chains {

  predicate Distinct(s: seq<nat>) {
    forall i, k :: 0 <= i < k < |s| ==> s[i] != s[k]
  }

  // -1 is the null link.
  function HeadOf(s: seq<nat>): int {
    if s == [] then -1 else s[0]
  }

  // The link that follows position i of chain s.
  function NextIn(s: seq<nat>, i: nat): int
    requires i < |s|
  {
    if i + 1 < |s| then s[i + 1] else -1
  }

  function RemoveAt(s: seq<nat>, i: nat): (r: seq<nat>)
    requires i < |s|
    ensures |r| == |s| - 1 && forall k :: 0 <= k < |r| ==> r[k] == if k < i then s[k] else s[k + 1]
  {
    s[..i] + s[i + 1..]
  }

  lemma RemoveAtMembers(s: seq<nat>, i: nat)
    requires i < |s| && Distinct(s)
    ensures Distinct(RemoveAt(s, i))
    ensures forall q :: q in RemoveAt(s, i) <==> q in s && q != s[i]
  {
    var r := RemoveAt(s, i);
    forall q | q in s && q != s[i] ensures q in r {
      var k :| 0 <= k < |s| && s[k] == q;
      if k < i { assert r[k] == q; } else { assert r[k - 1] == q; }
    }
  }

  function UpTo(n: nat): (s: set<nat>)
    ensures |s| == n && forall k: nat :: k in s <==> k < n
  {
    if n == 0 then {} else UpTo(n - 1) + {n - 1}
  }

  // As many distinct numbers of a set as it has members are all of them.
  lemma {:induction false} Pigeonhole(f: seq<nat>, s: set<nat>)
    requires Distinct(f) && |f| == |s| && forall i :: 0 <= i < |f| ==> f[i] in s
    ensures forall k :: k in s ==> k in f
  {
    if f != [] {
      var n := |f| - 1;
      Pigeonhole(f[..n], s - {f[n]});
      forall k | k in s ensures k in f {
        if k != f[n] { assert k in f[..n]; }
      }
    }
  }

  function Members(s: seq<nat>): (r: set<nat>)
    ensures forall x :: x in r <==> x in s
  {
    set x | x in s
  }

  // The members of a sequence without repetition, counted.
  lemma {:induction false} MembersCount(f: seq<nat>)
    requires Distinct(f)
    ensures |Members(f)| == |f|
  {
    if f != [] {
      var n := |f| - 1;
      var r := f[..n];
      MembersCount(r);
      assert f == r + [f[n]] && f[n] !in r;
      assert Members(f) == Members(r) + {f[n]};
    } else {
      assert Members(f) == {};
    }
  }

  // A set moved up by c has as many members.
  lemma {:induction false} ShiftCount(s: set<nat>, r: set<nat>, c: nat)
    requires forall x: nat :: x in s <==> c + x in r
    requires forall y :: y in r ==> y >= c
    ensures |r| == |s|
  {
    if r == {} {
      assert forall x :: x in s ==> c + x in r;
    } else {
      var y :| y in r;
      var x: nat := y - c;
      assert c + x == y;
      var s', r' := s - {x}, r - {y};
      forall z: nat ensures z in s' <==> c + z in r' {
        assert z in s <==> c + z in r;
      }
      ShiftCount(s', r', c);
    }
  }

  function Below(n: nat): (s: set<nat>)
    ensures |s| == n && forall b: nat :: b in s <==> b < n
  {
    if n == 0 then {} else Below(n - 1) + {n - 1}
  }
}
