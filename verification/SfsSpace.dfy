// How many blocks the files can take up: what it means for a disk to be full.
module SfsSpace {
  import opened Chains
  import opened SfsLayout
  import opened SfsBlocks
  import opened SfsCore

  // So many files can take up a disk of n blocks: each has at most an inode, an indirect
  // block and 143 blocks of data, and the superblock and the freemap are always there.
  predicate Crowded(n: nat, files: nat) {
    n <= 1 + BitBlocks(n) + 145 * files
  }

  ghost predicate Full(n: nat, owner: Owner) {
    forall c: nat :: c < n ==> c in owner
  }

  function PtrSet(fs: Fs, j: nat, n: nat): (s: set<nat>)
    requires n <= 143
    ensures |s| <= n && forall k :: 0 <= k < n ==> Ptr(fs, j, k) in s
  {
    if n == 0 then {} else PtrSet(fs, j, n - 1) + {Ptr(fs, j, n - 1)}
  }

  // The blocks of file j.
  function Space(fs: Fs, j: nat): (s: set<nat>)
    ensures |s| <= 145
  {
    {j, Ino(fs, j).indirect} + PtrSet(fs, j, 143)
  }

  lemma RoleSpace(fs: Fs, owner: Owner, b: nat)
    requires Inv(fs, owner) && NoFresh(owner) && b in owner
    ensures Fixed(owner[b]) ==> Reserved(fs.nblocks, b)
    ensures !Fixed(owner[b]) ==> exists j :: Live(owner, j) && b in Space(fs, j)
  {
    hide Ino, Ptr, VnodesCoherent, FreshCleared, PointersOwned, Reserved, BitBlocks, MapSize;
    assert !Has(owner, b, Fresh);
    match owner[b] {
      case InodeBlk => assert Live(owner, b) && b in Space(fs, b);
      case Indirect(j) => assert Live(owner, j) && b in Space(fs, j);
      case Data(j, k) => assert Live(owner, j) && b in Space(fs, j);
      case _ =>
    }
  }

  // Blocks that all belong to some of these files are at most 145 for each.
  lemma {:induction false} SpaceBound(fs: Fs, live: set<nat>, s: set<nat>)
    requires forall b :: b in s ==> exists j :: j in live && b in Space(fs, j)
    ensures |s| <= 145 * |live|
  {
    hide Space;
    if live == {} {
      assert s == {};
    } else {
      var j :| j in live;
      var rest := s - Space(fs, j);
      forall b | b in rest ensures exists i :: i in live - {j} && b in Space(fs, i) {
        var i :| i in live && b in Space(fs, i);
        assert i in live - {j};
      }
      SpaceBound(fs, live - {j}, rest);
      UnionBound(s, rest, Space(fs, j));
    }
  }

  lemma UnionBound(s: set<nat>, s1: set<nat>, s2: set<nat>)
    requires s <= s1 + s2
    ensures |s| <= |s1| + |s2|
  {
    SubsetCount(s, s1 + s2);
  }

  lemma {:induction false} SubsetCount(s: set<nat>, t: set<nat>)
    requires s <= t
    ensures |s| <= |t|
  {
    if s != {} {
      var x :| x in s;
      SubsetCount(s - {x}, t - {x});
    }
  }

  function FreemapBlocks(n: nat): (s: set<nat>)
    ensures |s| == n && forall b: nat :: b in s <==> 2 <= b < 2 + n
  {
    if n == 0 then {} else FreemapBlocks(n - 1) + {n + 1}
  }

  // A disk without a free block has files enough to fill it.
  lemma FullIsCrowded(fs: Fs, owner: Owner)
    requires Inv(fs, owner) && NoFresh(owner) && Full(fs.nblocks, owner)
    ensures Crowded(fs.nblocks, |Images(fs, owner)|)
  {
    hide Inv, NoFresh, Space, BitBlocks, Image;
    var live := Images(fs, owner).Keys;
    var fixed := {0} + FreemapBlocks(BitBlocks(fs.nblocks));
    var s := Below(fs.nblocks) - fixed;
    forall b | b in s ensures exists j :: j in live && b in Space(fs, j) {
      RoleSpace(fs, owner, b);
      var j :| Live(owner, j) && b in Space(fs, j);
      assert j in live;
    }
    SpaceBound(fs, live, s);
    UnionBound(Below(fs.nblocks), s, fixed);
  }
}
