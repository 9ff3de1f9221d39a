// What sfs_truncate does to a file's block map, to the blocks it gives back and
// to the bytes of the file.
module SfsTruncate {
  import opened SfsLayout
  import opened SfsBlocks
  import opened SfsSteps

  function BlockLen(len: nat): nat {
    (len + 511) / 512
  }

  // Which file blocks survive a cut to bl blocks. The comparison on the indirect
  // blocks is strict, so block number bl itself survives when it is indirect.
  predicate Kept(k: nat, bl: nat) {
    if k < 15 then k < bl else k <= bl
  }

  function CutDirect(d: Direct, bl: nat): (r: Direct)
    ensures forall k :: 0 <= k < 15 ==> r[k] == if k < bl then d[k] else 0
  {
    seq(15, k requires 0 <= k < 15 => if k < bl then d[k] else 0)
  }

  function CutWords(w: WordBlock, bl: nat): (r: WordBlock)
    ensures forall i :: 0 <= i < 128 ==> r[i] == if bl < 15 + i then 0 else w[i]
  {
    seq(128, i requires 0 <= i < 128 => if bl < 15 + i then 0 else w[i])
  }

  predicate AllZero(w: WordBlock) {
    forall i :: 0 <= i < 128 ==> w[i] == 0
  }

  // The indirect block is examined only if one exists and some of it may go.
  predicate Examines(n: Inode, bl: nat) {
    bl < 142 && n.indirect != 0
  }

  predicate DropsIndirect(fs: Fs, j: nat, bl: nat) {
    var n := Ino(fs, j);
    Examines(n, bl) && AllZero(CutWords(Words(Blk(fs, n.indirect)), bl))
  }

  function CutInode(fs: Fs, j: nat, len: Word): Inode {
    var n := Ino(fs, j);
    n.(direct := CutDirect(n.direct, BlockLen(len)), size := len,
       indirect := if DropsIndirect(fs, j, BlockLen(len)) then 0 else n.indirect)
  }

  // The disk after the indirect block was rewritten, if it had to be.
  function CutDisk(fs: Fs, j: nat, bl: nat): Fs {
    var n := Ino(fs, j);
    var w := Words(Blk(fs, n.indirect));
    if Examines(n, bl) && !AllZero(CutWords(w, bl)) && CutWords(w, bl) != w && n.indirect < |fs.disk|
    then PutBlock(fs, n.indirect, Bytes(CutWords(w, bl)))
    else fs
  }

  function Truncate(fs: Fs, j: nat, len: Word): Fs
    requires j in fs.vnodes
  {
    PutInode(CutDisk(fs, j, BlockLen(len)), j, CutInode(fs, j, len))
  }

  // The blocks given back to the freemap.
  function Released(fs: Fs, j: nat, bl: nat): (s: set<nat>)
    ensures forall k :: 0 <= k < 143 && !Kept(k, bl) && Ptr(fs, j, k) != 0 ==> Ptr(fs, j, k) in s
    ensures DropsIndirect(fs, j, bl) ==> Ino(fs, j).indirect in s
  {
    (set k: nat | k < 143 && !Kept(k, bl) && Ptr(fs, j, k) != 0 :: Ptr(fs, j, k)) +
    (if DropsIndirect(fs, j, bl) then {Ino(fs, j).indirect} else {})
  }

  function CutBlocks(b: Blocks, bl: nat): (r: Blocks)
    ensures forall k :: 0 <= k < 143 ==> r[k] == if Kept(k, bl) then b[k] else ZeroBlock()
  {
    seq<Block>(143, k requires 0 <= k < 143 => if Kept(k, bl) then b[k] else ZeroBlock())
  }

  function TruncateImg(img: Img, len: Word): Img {
    img.(size := len, blocks := CutBlocks(img.blocks, BlockLen(len)))
  }

  // ---- The pointers afterwards ----

  ghost predicate PointersCut(fs: Fs, owner: Owner, fs': Fs, j: nat, bl: nat) {
    && (forall i :: Live(owner, i) && i != j ==> Ino(fs', i) == Ino(fs, i))
    && (forall i, h :: Live(owner, i) && i != j && 0 <= h < 143 ==> Ptr(fs', i, h) == Ptr(fs, i, h))
    && Ino(fs', j).indirect == (if DropsIndirect(fs, j, bl) then 0 else Ino(fs, j).indirect)
    && (forall h :: 0 <= h < 143 ==> Ptr(fs', j, h) == if Kept(h, bl) then Ptr(fs, j, h) else 0)
  }

  // What the indirect block holds after the cut.
  lemma CutDiskWords(fs: Fs, j: nat, bl: nat)
    ensures var n := Ino(fs, j); var fs1 := CutDisk(fs, j, bl);
            Examines(n, bl) && !DropsIndirect(fs, j, bl) && n.indirect < |fs.disk| ==>
              Words(Blk(fs1, n.indirect)) == CutWords(Words(Blk(fs, n.indirect)), bl)
    ensures !Examines(Ino(fs, j), bl) ==> CutDisk(fs, j, bl) == fs
  {
    hide Ino, Words, Bytes, CutWords, AllZero;
    WordsOfBytes(CutWords(Words(Blk(fs, Ino(fs, j).indirect)), bl));
  }

  // Only the file's own indirect block is rewritten.
  lemma CutDiskFrame(fs: Fs, j: nat, bl: nat)
    ensures forall c: nat :: c == 0 || c != Ino(fs, j).indirect ==> Blk(CutDisk(fs, j, bl), c) == Blk(fs, c)
    ensures |CutDisk(fs, j, bl).disk| == |fs.disk|
    ensures CutDisk(fs, j, bl).vnodes == fs.vnodes && CutDisk(fs, j, bl).nblocks == fs.nblocks
  {
    hide Ino, Words, Bytes, CutWords, AllZero;
  }

  lemma TruncateOtherPointers(fs: Fs, owner: Owner, j: nat, len: Word, i: nat)
    requires Layout(fs, owner) && PointersOwned(fs, owner) && VnodesCoherent(fs, owner)
    requires j in fs.vnodes && Live(owner, i) && i != j
    ensures Ino(Truncate(fs, j, len), i) == Ino(fs, i)
    ensures forall h :: 0 <= h < 143 ==> Ptr(Truncate(fs, j, len), i, h) == Ptr(fs, i, h)
  {
    var d := Ino(fs, j).indirect;
    var fs1 := CutDisk(fs, j, BlockLen(len));
    var n' := CutInode(fs, j, len);
    assert Live(owner, j);
    LayoutDisk(fs, owner);
    assert d != 0 ==> Has(owner, d, Indirect(j)) by { hide Layout; }
    assert Ino(fs, i).indirect != 0 ==> Has(owner, Ino(fs, i).indirect, Indirect(i)) by { hide Layout; }
    CutDiskFrame(fs, j, BlockLen(len));
    hide DecodeInode, Words, CutDisk, CutInode, Layout, PointersOwned, BlockLen;
    var fs' := PutInode(fs1, j, n');
    assert Blk(fs', i) == Blk(fs, i);
    assert Ino(fs', i) == Ino(fs, i);
    assert Ino(fs, i).indirect != 0 ==> Blk(fs', Ino(fs, i).indirect) == Blk(fs, Ino(fs, i).indirect);
  }

  lemma TruncateOwnPointers(fs: Fs, owner: Owner, j: nat, len: Word, h: nat)
    requires Layout(fs, owner) && PointersOwned(fs, owner) && VnodesCoherent(fs, owner)
    requires j in fs.vnodes && h < 143
    ensures Ino(Truncate(fs, j, len), j) == CutInode(fs, j, len)
    ensures Ptr(Truncate(fs, j, len), j, h) == if Kept(h, BlockLen(len)) then Ptr(fs, j, h) else 0
  {
    hide Words, CutDisk, Layout, PointersOwned, BlockLen, Blk, Truncate, Ino;
    var n := Ino(fs, j);
    var bl := BlockLen(len);
    assert Live(owner, j);
    CutDiskWords(fs, j, bl);
    CutDiskFrame(fs, j, bl);
    LayoutDisk(fs, owner);
    assert n.indirect != 0 ==> n.indirect < fs.nblocks by { IndirectOnDisk(fs, owner, j); }
    TruncateViews(fs, j, len);
    hide VnodesCoherent;
  }

  lemma TruncateViews(fs: Fs, j: nat, len: Word)
    requires j in fs.vnodes
    ensures Ino(Truncate(fs, j, len), j) == CutInode(fs, j, len)
    ensures forall c: nat :: Blk(Truncate(fs, j, len), c) == Blk(CutDisk(fs, j, BlockLen(len)), c)
  {
    hide CutInode, CutDisk, DecodeInode;
  }

  lemma IndirectOnDisk(fs: Fs, owner: Owner, j: nat)
    requires Layout(fs, owner) && PointersOwned(fs, owner) && Live(owner, j)
    ensures Ino(fs, j).indirect != 0 ==> Ino(fs, j).indirect < fs.nblocks
    ensures forall k :: 0 <= k < 143 && Ptr(fs, j, k) != 0 ==> Ptr(fs, j, k) < fs.nblocks
  {
    hide Ino, Ptr, BitBlocks;
    forall b: nat | b in owner && !Fixed(owner[b]) ensures b < fs.nblocks {
      assert b >= fs.nblocks ==> Reserved(fs.nblocks, b);
    }
    assert Ino(fs, j).indirect != 0 ==> Has(owner, Ino(fs, j).indirect, Indirect(j));
    forall k | 0 <= k < 143 && Ptr(fs, j, k) != 0 ensures Ptr(fs, j, k) < fs.nblocks {
      assert Has(owner, Ptr(fs, j, k), Data(j, k));
    }
  }

  lemma TruncatePointers(fs: Fs, owner: Owner, j: nat, len: Word)
    requires Layout(fs, owner) && PointersOwned(fs, owner) && VnodesCoherent(fs, owner) && j in fs.vnodes
    ensures PointersCut(fs, owner, Truncate(fs, j, len), j, BlockLen(len))
  {
    var fs' := Truncate(fs, j, len);
    var bl := BlockLen(len);
    TruncateOwnPointers(fs, owner, j, len, 0);
    hide Ino, Ptr, Truncate, Layout, PointersOwned, VnodesCoherent, BlockLen, Kept, DropsIndirect;
    forall i | Live(owner, i) && i != j
      ensures Ino(fs', i) == Ino(fs, i)
      ensures forall h :: 0 <= h < 143 ==> Ptr(fs', i, h) == Ptr(fs, i, h)
    {
      TruncateOtherPointers(fs, owner, j, len, i);
    }
    forall h | 0 <= h < 143
      ensures Ptr(fs', j, h) == if Kept(h, bl) then Ptr(fs, j, h) else 0
    {
      TruncateOwnPointers(fs, owner, j, len, h);
    }
  }

  // ---- Ownership, files and bytes afterwards ----

  // Every released block was one this file used, for a purpose now gone.
  // The superblock is nobody's indirect block.
  lemma SuperKept(fs: Fs, owner: Owner, j: nat, len: Word)
    requires Layout(fs, owner) && PointersOwned(fs, owner) && Live(owner, j) && j in fs.vnodes
    ensures Blk(Truncate(fs, j, len), 0) == Blk(fs, 0)
  {
    hide Words, Bytes, CutWords, AllZero, CutInode, Ptr, MapSize, BitBlocks, IsSuper, DecodeInode;
    LayoutDisk(fs, owner);
    assert Ino(fs, j).indirect != 0 ==> Has(owner, Ino(fs, j).indirect, Indirect(j));
  }

  lemma ReleasedRoles(fs: Fs, owner: Owner, j: nat, bl: nat)
    requires PointersOwned(fs, owner) && Live(owner, j)
    ensures forall b :: b in Released(fs, j, bl) ==> b in owner && (owner[b].Data? || owner[b].Indirect?)
    ensures forall b :: b in Released(fs, j, bl) && owner[b].Data? ==>
              owner[b].ino == j && owner[b].blk < 143 && !Kept(owner[b].blk, bl)
    ensures forall b :: b in Released(fs, j, bl) && owner[b].Indirect? ==>
              owner[b].ino == j && DropsIndirect(fs, j, bl)
  {
    hide Ino, Ptr, DropsIndirect, Kept;
    assert DropsIndirect(fs, j, bl) ==> Ino(fs, j).indirect != 0 by { DropImpliesIndirect(fs, j, bl); }
  }

  lemma DropImpliesIndirect(fs: Fs, j: nat, bl: nat)
    ensures DropsIndirect(fs, j, bl) ==> Ino(fs, j).indirect != 0
  {
    hide Ino, Words, CutWords;
  }

  lemma TruncateOwnership(fs: Fs, owner: Owner, fs': Fs, j: nat, bl: nat)
    requires PointersOwned(fs, owner) && OwnedReached(fs, owner) && Live(owner, j)
    requires PointersCut(fs, owner, fs', j, bl)
    ensures PointersOwned(fs', owner - Released(fs, j, bl))
    ensures OwnedReached(fs', owner - Released(fs, j, bl))
  {
    var gone := Released(fs, j, bl);
    var owner' := owner - gone;
    ReleasedRoles(fs, owner, j, bl);
    hide Ino, Ptr, DropsIndirect, Kept, Released;
    assert forall i: nat :: Live(owner', i) <==> Live(owner, i);
    forall i, h | Live(owner', i) && 0 <= h < 143 && Ptr(fs', i, h) != 0
      ensures Has(owner', Ptr(fs', i, h), Data(i, h))
    {
      assert Ptr(fs', i, h) == Ptr(fs, i, h);
      assert Has(owner, Ptr(fs, i, h), Data(i, h));
    }
    forall b | b in owner' && owner'[b].Data?
      ensures Ptr(fs', owner'[b].ino, owner'[b].blk) == b
    {
      var k := owner[b].blk;
      assert Ptr(fs, owner[b].ino, k) == b;
    }
  }

  lemma CutDiskRest(fs: Fs, owner: Owner, fs1: Fs, d: nat, gone: set<nat>)
    requires VnodesCoherent(fs, owner) && FreshCleared(fs, owner)
    requires fs1.vnodes == fs.vnodes && fs1.nblocks == fs.nblocks
    requires forall c: nat :: c == 0 || c != d ==> Blk(fs1, c) == Blk(fs, c)
    requires d != 0 ==> d in owner && owner[d].Indirect?
    requires forall b :: b in gone ==> b in owner && !owner[b].InodeBlk?
    ensures VnodesCoherent(fs1, owner - gone) && FreshCleared(fs1, owner - gone)
  {
    hide DecodeInode, Blk;
    var owner' := owner - gone;
    assert forall c: nat :: Has(owner', c, Fresh) ==> Has(owner, c, Fresh);
    assert forall i: nat :: Live(owner', i) <==> Live(owner, i);
  }

  lemma TruncateRest(fs: Fs, owner: Owner, j: nat, len: Word, gone: set<nat>)
    requires PointersOwned(fs, owner) && VnodesCoherent(fs, owner) && FreshCleared(fs, owner)
    requires j in fs.vnodes
    requires forall b :: b in gone ==> b in owner && !owner[b].InodeBlk?
    ensures VnodesCoherent(Truncate(fs, j, len), owner - gone)
    ensures FreshCleared(Truncate(fs, j, len), owner - gone)
  {
    assert Live(owner, j);
    var d := Ino(fs, j).indirect;
    assert d != 0 ==> Has(owner, d, Indirect(j));
    hide DecodeInode, CutDisk, CutInode, PointersOwned, BlockLen, Ino, VnodesCoherent, FreshCleared, Blk;
    var fs1 := CutDisk(fs, j, BlockLen(len));
    CutDiskFrame(fs, j, BlockLen(len));
    CutDiskRest(fs, owner, fs1, d, gone);
    PutInodeKeeps(fs1, owner - gone, owner - gone, j, CutInode(fs, j, len));
  }

  lemma TruncateImages(fs: Fs, owner: Owner, fs': Fs, owner': Owner, j: nat, len: Word)
    requires Live(owner, j)
    requires forall i: nat :: Live(owner, i) <==> Live(owner', i)
    requires forall i :: Live(owner, i) && i != j ==> Ino(fs', i) == Ino(fs, i)
    requires Ino(fs', j).kind == Ino(fs, j).kind && Ino(fs', j).links == Ino(fs, j).links && Ino(fs', j).size == len
    requires forall i, h :: Live(owner, i) && 0 <= h < 143 ==>
               BlockAt(fs', i, h) == if i == j && !Kept(h, BlockLen(len)) then ZeroBlock() else BlockAt(fs, i, h)
    ensures Images(fs', owner') == Images(fs, owner)[j := TruncateImg(Image(fs, j), len)]
  {
    hide Ino, BlockAt, Kept, BlockLen, ZeroBlock;
    forall i | Live(owner, i) && i != j ensures Image(fs', i) == Image(fs, i) {
      ImageAgrees(fs, fs', i);
    }
    assert FileBlocks(fs', j) == CutBlocks(FileBlocks(fs, j), BlockLen(len));
    assert Images(fs', owner').Keys == Images(fs, owner).Keys;
  }

  lemma TruncateBlocks(fs: Fs, owner: Owner, j: nat, len: Word)
    requires Layout(fs, owner) && PointersOwned(fs, owner) && VnodesCoherent(fs, owner) && j in fs.vnodes
    ensures var fs' := Truncate(fs, j, len);
            forall i, h :: Live(owner, i) && 0 <= h < 143 ==>
              BlockAt(fs', i, h) == if i == j && !Kept(h, BlockLen(len)) then ZeroBlock() else BlockAt(fs, i, h)
  {
    var bl := BlockLen(len);
    var fs' := Truncate(fs, j, len);
    assert Live(owner, j);
    CutDiskFrame(fs, j, bl);
    var d := Ino(fs, j).indirect;
    assert d != 0 ==> Has(owner, d, Indirect(j)) by { hide Layout; }
    TruncatePointers(fs, owner, j, len);
    assert forall c: nat :: c != d || d == 0 ==> Blk(fs', c) == Blk(fs, c) by {
      hide CutInode, CutDisk, Layout, PointersOwned, Ino, DecodeInode, Examines, DropsIndirect, BlockLen;
    }
    hide Ino, Ptr, Truncate, Layout, Blk, BlockLen, Kept, DropsIndirect, ZeroBlock, CutDisk;
    forall i, h | Live(owner, i) && 0 <= h < 143
      ensures BlockAt(fs', i, h) == if i == j && !Kept(h, bl) then ZeroBlock() else BlockAt(fs, i, h)
    {
      assert Ptr(fs, i, h) != 0 ==> Has(owner, Ptr(fs, i, h), Data(i, h));
    }
  }

  // sfs_truncate to any length keeps every block used for exactly one thing, gives
  // back just the blocks it unmaps, and changes no other file.
  lemma TruncateStep(fs: Fs, owner: Owner, j: nat, len: Word)
    requires Inv(fs, owner) && j in fs.vnodes
    ensures var fs' := Truncate(fs, j, len); var owner' := owner - Released(fs, j, BlockLen(len));
            && Inv(fs', owner')
            && Images(fs', owner') == Images(fs, owner)[j := TruncateImg(Image(fs, j), len)]
            && PointersCut(fs, owner, fs', j, BlockLen(len))
  {
    var fs' := Truncate(fs, j, len);
    var bl := BlockLen(len);
    var gone := Released(fs, j, bl);
    var owner' := owner - gone;
    assert Live(owner, j);
    LayoutDisk(fs, owner);
    CutDiskFrame(fs, j, bl);
    assert fs'.nblocks == fs.nblocks && |fs'.disk| == |fs.disk|;
    assert Blk(fs', 0) == Blk(fs, 0) by { hide Words, Bytes, CutWords; SuperKept(fs, owner, j, len); }
    TruncateOwnPointers(fs, owner, j, len, 0);
    assert CutInode(fs, j, len).size == len && CutInode(fs, j, len).kind == Ino(fs, j).kind &&
           CutInode(fs, j, len).links == Ino(fs, j).links;
    hide Ino, Ptr, Truncate, Layout, PointersOwned, OwnedReached, VnodesCoherent, FreshCleared, BlockLen, Kept,
      DropsIndirect, Images, Image, TruncateImg, BlockAt, CutDisk, CutInode, Examines, Blk, Released, ZeroBlock;
    TruncatePointers(fs, owner, j, len);
    ReleasedRoles(fs, owner, j, bl);
    TruncateOwnership(fs, owner, fs', j, bl);
    TruncateRest(fs, owner, j, len, gone);
    LayoutKeptByRelease(fs, owner, fs', gone);
    TruncateBlocks(fs, owner, j, len);
    TruncateImages(fs, owner, fs', owner', j, len);
  }
}
