// Linked lists over frame numbers and swap slots, as values: what the links spell out.
module FrameLists {
  import opened Chains

  function LastOf(s: seq<nat>): int {
    if s == [] then -1 else s[|s| - 1]
  }

  function PrevIn(s: seq<nat>, i: nat): int
    requires i < |s|
  {
    if i > 0 then s[i - 1] else -1
  }

  ghost predicate Node(next: seq<int>, prev: seq<int>, s: seq<nat>, i: nat)
    requires i < |s|
  {
    s[i] < |next| && s[i] < |prev| && next[s[i]] == NextIn(s, i) && prev[s[i]] == PrevIn(s, i)
  }

  // s is the doubly linked list between head and last.
  ghost predicate DoubleList(next: seq<int>, prev: seq<int>, head: int, last: int, s: seq<nat>) {
    && head == HeadOf(s) && last == LastOf(s) && Distinct(s)
    && (forall i :: 0 <= i < |s| ==> Node(next, prev, s, i))
  }

  lemma At(next: seq<int>, prev: seq<int>, head: int, last: int, s: seq<nat>, k: nat)
    requires DoubleList(next, prev, head, last, s) && k < |s|
    ensures s[k] < |next| && s[k] < |prev| && next[s[k]] == NextIn(s, k) && prev[s[k]] == PrevIn(s, k)
    ensures head == s[0] && last == s[|s| - 1] && (head == last <==> |s| == 1)
    ensures (s[k] == head <==> k == 0) && (s[k] == last <==> k == |s| - 1)
  {
    assert Node(next, prev, s, k);
  }

  lemma Ends(next: seq<int>, prev: seq<int>, head: int, last: int, s: seq<nat>)
    requires DoubleList(next, prev, head, last, s)
    ensures (head == -1 <==> s == []) && (last == -1 <==> s == [])
  {
  }

  ghost predicate Link(next: seq<int>, s: seq<nat>, i: nat)
    requires i < |s|
  {
    s[i] < |next| && next[s[i]] == NextIn(s, i)
  }

  // s is the singly linked chain from head.
  ghost predicate Chain(next: seq<int>, head: int, s: seq<nat>) {
    && head == HeadOf(s) && Distinct(s)
    && (forall i :: 0 <= i < |s| ==> Link(next, s, i))
  }

  lemma ChainEnd(next: seq<int>, head: int, s: seq<nat>)
    requires Chain(next, head, s)
    ensures head == -1 <==> s == []
  {
  }

  lemma ChainPopped(next: seq<int>, head: int, s: seq<nat>)
    requires Chain(next, head, s) && s != []
    ensures 0 <= head < |next| && head == s[0] && Chain(next, next[head], s[1..])
    ensures forall x :: x in s[1..] <==> x in s && x != s[0]
  {
    assert Link(next, s, 0);
    forall i | 0 <= i < |s| - 1 ensures Link(next, s[1..], i) {
      assert Link(next, s, i + 1);
    }
  }

  lemma ChainPushed(next: seq<int>, head: int, s: seq<nat>, x: nat)
    requires Chain(next, head, s) && x < |next| && x !in s
    ensures Chain(next[x := head], x, [x] + s)
  {
    var s', next' := [x] + s, next[x := head];
    forall i | 0 <= i < |s'| ensures Link(next', s', i) {
      if i > 0 { assert Link(next, s, i - 1) && s[i - 1] in s; }
    }
  }

  // ---- Surgery on the doubly linked list ----

  lemma PushedFront(next: seq<int>, prev: seq<int>, next': seq<int>, prev': seq<int>, head: int, last: int, s: seq<nat>, x: nat)
    requires DoubleList(next, prev, head, last, s) && x < |next| && x < |prev| && x !in s
    requires |next'| == |next| && |prev'| == |prev|
    requires forall q: nat :: q < |next| ==> next'[q] == if q == x then head else next[q]
    requires forall q: nat :: q < |prev| ==> prev'[q] == if q == x then -1 else if q == head then x else prev[q]
    ensures DoubleList(next', prev', x, if s == [] then x else last, [x] + s)
  {
    var s' := [x] + s;
    forall i | 0 <= i < |s'| ensures Node(next', prev', s', i) {
      if i > 0 { assert Node(next, prev, s, i - 1) && s[i - 1] in s; }
    }
  }

  lemma PushedBack(next: seq<int>, prev: seq<int>, next': seq<int>, prev': seq<int>, head: int, last: int, s: seq<nat>, x: nat)
    requires DoubleList(next, prev, head, last, s) && x < |next| && x < |prev| && x !in s
    requires |next'| == |next| && |prev'| == |prev|
    requires forall q: nat :: q < |next| ==> next'[q] == if q == x then -1 else if q == last then x else next[q]
    requires forall q: nat :: q < |prev| ==> prev'[q] == if q == x then last else prev[q]
    ensures DoubleList(next', prev', if s == [] then x else head, x, s + [x])
  {
    var s' := s + [x];
    forall i | 0 <= i < |s'| ensures Node(next', prev', s', i) {
      if i < |s| { assert Node(next, prev, s, i) && s[i] in s; }
    }
  }

  // Both neighbours of position i skip it; at an end, the head or the last moves.
  lemma Removed(next: seq<int>, prev: seq<int>, next': seq<int>, prev': seq<int>, head: int, last: int, s: seq<nat>, i: nat)
    requires DoubleList(next, prev, head, last, s) && i < |s|
    requires |next'| == |next| && |prev'| == |prev|
    requires forall q: nat :: q < |next| ==> next'[q] == if i > 0 && q == s[i - 1] then NextIn(s, i) else next[q]
    requires forall q: nat :: q < |prev| ==> prev'[q] == if i + 1 < |s| && q == s[i + 1] then PrevIn(s, i) else prev[q]
    ensures DoubleList(next', prev', if i == 0 then NextIn(s, i) else head, if i + 1 == |s| then PrevIn(s, i) else last, RemoveAt(s, i))
  {
    RemoveAtMembers(s, i);
    var r := RemoveAt(s, i);
    forall k | 0 <= k < |r| ensures Node(next', prev', r, k) {
      if k < i { assert Node(next, prev, s, k); } else { assert Node(next, prev, s, k + 1); }
    }
  }
}
