// The remaining elementary steps on the block level: writing data, loading,
// syncing, creating and discarding inodes, and cutting a file short.
module SfsSteps {
  import opened SfsLayout
  import opened SfsBlocks

  // ---- Writing one data block: sfs_partialio, sfs_blockio ----

  lemma WriteDataBlocks(fs: Fs, owner: Owner, j: nat, k: nat, blk: Block)
    requires Layout(fs, owner) && PointersOwned(fs, owner)
    requires Live(owner, j) && k < 143 && 0 != Ptr(fs, j, k) < fs.nblocks
    ensures var fs' := PutBlock(fs, Ptr(fs, j, k), blk);
            forall i, h :: Live(owner, i) && 0 <= h < 143 ==>
              BlockAt(fs', i, h) == if i == j && h == k then blk else BlockAt(fs, i, h)
  {
    var b := Ptr(fs, j, k);
    assert Has(owner, b, Data(j, k));
    var fs' := PutBlock(fs, b, blk);
    hide Ino, Ptr, Layout, ZeroBlock;
    WritesKeepPointers(fs, owner, b, blk);
    forall i, h | Live(owner, i) && 0 <= h < 143
      ensures BlockAt(fs', i, h) == if i == j && h == k then blk else BlockAt(fs, i, h)
    {
      assert Ptr(fs', i, h) == Ptr(fs, i, h);
      if Ptr(fs, i, h) != 0 { assert Has(owner, Ptr(fs, i, h), Data(i, h)); }
    }
  }

  // The images after the blocks of j alone changed.
  lemma ImagesWritten(fs: Fs, owner: Owner, fs': Fs, j: nat, k: nat, blk: Block)
    requires Live(owner, j) && k < 143
    requires forall i :: Live(owner, i) ==> Ino(fs', i) == Ino(fs, i)
    requires forall i, h :: Live(owner, i) && 0 <= h < 143 ==>
               BlockAt(fs', i, h) == if i == j && h == k then blk else BlockAt(fs, i, h)
    ensures Images(fs', owner) ==
            Images(fs, owner)[j := Image(fs, j).(blocks := Image(fs, j).blocks[k := blk])]
  {
    hide Ino, BlockAt;
    forall i | Live(owner, i) && i != j ensures Image(fs', i) == Image(fs, i) {
      ImageAgrees(fs, fs', i);
    }
    assert FileBlocks(fs', j) == FileBlocks(fs, j)[k := blk];
  }

  // Writing block k of j changes that block of that file and nothing else.
  lemma WriteDataStep(fs: Fs, owner: Owner, j: nat, k: nat, blk: Block)
    requires Inv(fs, owner) && Live(owner, j) && k < 143 && 0 != Ptr(fs, j, k) < fs.nblocks
    ensures var fs' := PutBlock(fs, Ptr(fs, j, k), blk);
            && Inv(fs', owner)
            && Images(fs', owner) == Images(fs, owner)[j := Image(fs, j).(blocks := Image(fs, j).blocks[k := blk])]
            && SamePointers(fs, owner, fs')
  {
    LayoutDisk(fs, owner);
    var b := Ptr(fs, j, k);
    assert Has(owner, b, Data(j, k));
    var fs' := PutBlock(fs, b, blk);
    hide Ino, Ptr, Image, Images, Reserved, PointersOwned, OwnedReached, VnodesCoherent, FreshCleared, BlockAt, Blk;
    WritesKeepPointers(fs, owner, b, blk);
    WriteDataBlocks(fs, owner, j, k, blk);
    ImagesWritten(fs, owner, fs', j, k, blk);
    PutBlockKeeps(fs, owner, owner, b, blk);
    OwnershipKept(fs, owner, fs', owner);
  }

  // ---- Steps that leave every inode and every block as they are ----

  lemma SameInodesStep(fs: Fs, owner: Owner, fs': Fs)
    requires Layout(fs, owner) && PointersOwned(fs, owner) && OwnedReached(fs, owner)
    requires fs'.nblocks == fs.nblocks && |fs'.disk| == |fs.disk|
    requires forall i :: Live(owner, i) ==> Ino(fs', i) == Ino(fs, i)
    requires forall c: nat :: c in owner && !owner[c].InodeBlk? && !owner[c].FreeMap? ==> Blk(fs', c) == Blk(fs, c)
    ensures Layout(fs', owner) && PointersOwned(fs', owner) && OwnedReached(fs', owner)
    ensures SamePointers(fs, owner, fs')
    ensures Images(fs', owner) == Images(fs, owner)
  {
    assert SamePointers(fs, owner, fs') by {
      hide Ino, Blk, Words, MapSize, BitBlocks, Reserved;
      forall i, h | Live(owner, i) && 0 <= h < 143
        ensures Ptr(fs', i, h) == Ptr(fs, i, h)
      {
        assert Ino(fs, i).indirect != 0 ==> Has(owner, Ino(fs, i).indirect, Indirect(i));
      }
    }
    LayoutDisk(fs, owner);
    hide Ino, Ptr, Images, Blk, MapSize, BitBlocks, Reserved, ZeroBlock, IsSuper;
    OwnershipKept(fs, owner, fs', owner);
    forall i, h | Live(owner, i) && 0 <= h < 143
      ensures BlockAt(fs', i, h) == BlockAt(fs, i, h)
    {
      assert Ptr(fs, i, h) != 0 ==> Has(owner, Ptr(fs, i, h), Data(i, h));
    }
    BlocksKeptImages(fs, owner, fs', owner);
  }

  // A change to the vnode table alone that leaves every inode in force as it was.
  ghost predicate SameView(fs: Fs, fs': Fs) {
    && fs'.nblocks == fs.nblocks && fs'.disk == fs.disk
    && (forall i: nat :: Ino(fs', i) == Ino(fs, i))
  }

  lemma SameViewStep(fs: Fs, owner: Owner, fs': Fs)
    requires Inv(fs, owner) && SameView(fs, fs') && VnodesCoherent(fs', owner)
    ensures Inv(fs', owner) && Images(fs', owner) == Images(fs, owner)
  {
    assert forall c: nat :: Blk(fs', c) == Blk(fs, c);
    hide Ino, Ptr, Images, DecodeInode, Layout, PointersOwned, OwnedReached, Blk, VnodesCoherent;
    SameInodesStep(fs, owner, fs');
  }

  // sfs_loadvnode of an inode not in memory.
  function Load(fs: Fs, j: nat): Fs {
    fs.(vnodes := fs.vnodes[j := Vnode(DecodeInode(Blk(fs, j)), false, 1)])
  }

  lemma LoadStep(fs: Fs, owner: Owner, j: nat)
    requires Inv(fs, owner) && Live(owner, j) && j !in fs.vnodes
    ensures Inv(Load(fs, j), owner) && Images(Load(fs, j), owner) == Images(fs, owner)
  {
    hide DecodeInode, Layout, PointersOwned, OwnedReached, FreshCleared, Images;
    SameViewStep(fs, owner, Load(fs, j));
  }

  // Reference counting: vnode_incref, and vnode_decref above one reference.
  function SetRef(fs: Fs, j: nat, n: nat): Fs
    requires j in fs.vnodes
  {
    fs.(vnodes := fs.vnodes[j := fs.vnodes[j].(refcount := n)])
  }

  lemma SetRefStep(fs: Fs, owner: Owner, j: nat, n: nat)
    requires Inv(fs, owner) && j in fs.vnodes && n > 0
    ensures Inv(SetRef(fs, j, n), owner) && Images(SetRef(fs, j, n), owner) == Images(fs, owner)
    ensures Refs(SetRef(fs, j, n)) == Refs(fs)[j := n]
  {
    hide DecodeInode, Layout, PointersOwned, OwnedReached, FreshCleared, Images;
    SameViewStep(fs, owner, SetRef(fs, j, n));
  }

  // sfs_sync_inode on a dirty vnode.
  function Sync(fs: Fs, j: nat): Fs
    requires j in fs.vnodes && j < |fs.disk|
  {
    PutBlock(fs, j, EncodeInode(fs.vnodes[j].inode))
      .(vnodes := fs.vnodes[j := fs.vnodes[j].(dirty := false)])
  }

  lemma SyncView(fs: Fs, owner: Owner, j: nat)
    requires VnodesCoherent(fs, owner) && FreshCleared(fs, owner) && j in fs.vnodes && j < |fs.disk|
    ensures var fs' := Sync(fs, j);
            && (forall i: nat :: Ino(fs', i) == Ino(fs, i))
            && (forall c: nat :: c != j ==> Blk(fs', c) == Blk(fs, c))
            && VnodesCoherent(fs', owner) && FreshCleared(fs', owner)
  {
    hide DecodeInode, EncodeInode;
    InodeRoundTrip(fs.vnodes[j].inode);
  }

  lemma SyncStep(fs: Fs, owner: Owner, j: nat)
    requires Inv(fs, owner) && j in fs.vnodes && j < fs.nblocks
    ensures Inv(Sync(fs, j), owner) && Images(Sync(fs, j), owner) == Images(fs, owner)
    ensures SamePointers(fs, owner, Sync(fs, j))
  {
    LayoutDisk(fs, owner);
    var fs' := Sync(fs, j);
    assert fs'.nblocks == fs.nblocks && |fs'.disk| == |fs.disk| && Blk(fs', 0) == Blk(fs, 0);
    hide DecodeInode, EncodeInode, Layout, PointersOwned, OwnedReached, Images, Sync, Ino, Blk, FreshCleared;
    assert Live(owner, j);
    SyncView(fs, owner, j);
    SameInodesStep(fs, owner, fs');
  }

  // sfs_reclaim drops a clean vnode of a file that still has links.
  function Unload(fs: Fs, j: nat): Fs {
    fs.(vnodes := fs.vnodes - {j})
  }

  lemma UnloadStep(fs: Fs, owner: Owner, j: nat)
    requires Inv(fs, owner) && j in fs.vnodes && !fs.vnodes[j].dirty
    ensures Inv(Unload(fs, j), owner) && Images(Unload(fs, j), owner) == Images(fs, owner)
  {
    hide DecodeInode, Layout, PointersOwned, OwnedReached, FreshCleared, Images;
    SameViewStep(fs, owner, Unload(fs, j));
  }

  // ---- Changing an inode's fields: size, link count ----

  lemma MetaPointers(fs: Fs, owner: Owner, j: nat, n: Inode)
    requires VnodesCoherent(fs, owner) && j in fs.vnodes
    requires n.direct == Ino(fs, j).direct && n.indirect == Ino(fs, j).indirect
    ensures SamePointers(fs, owner, PutInode(fs, j, n))
    ensures forall i, h :: 0 <= h < 143 ==> BlockAt(PutInode(fs, j, n), i, h) == BlockAt(fs, i, h)
  {
    hide DecodeInode, Words;
    var fs' := PutInode(fs, j, n);
    assert forall i: nat :: i != j ==> Ino(fs', i) == Ino(fs, i);
    assert forall c: nat :: Blk(fs', c) == Blk(fs, c);
  }

  lemma MetaStep(fs: Fs, owner: Owner, j: nat, n: Inode)
    requires Inv(fs, owner) && j in fs.vnodes
    requires n.direct == Ino(fs, j).direct && n.indirect == Ino(fs, j).indirect
    ensures Inv(PutInode(fs, j, n), owner)
    ensures Images(PutInode(fs, j, n), owner) ==
            Images(fs, owner)[j := Img(n.kind, n.links, n.size, Image(fs, j).blocks)]
  {
    var fs' := PutInode(fs, j, n);
    assert fs'.nblocks == fs.nblocks && fs'.disk == fs.disk;
    hide Ino, Ptr, PointersOwned, OwnedReached, Blk, BlockAt, PutInode, Reserved;
    MetaPointers(fs, owner, j, n);
    PutInodeKeeps(fs, owner, owner, j, n);
    OwnershipKept(fs, owner, fs', owner);
    MetaImages(fs, owner, fs', j);
  }

  lemma MetaImages(fs: Fs, owner: Owner, fs': Fs, j: nat)
    requires Live(owner, j)
    requires forall i :: Live(owner, i) && i != j ==> Ino(fs', i) == Ino(fs, i)
    requires forall i, h :: 0 <= h < 143 ==> BlockAt(fs', i, h) == BlockAt(fs, i, h)
    ensures Images(fs', owner) == Images(fs, owner)[
      j := Img(Ino(fs', j).kind, Ino(fs', j).links, Ino(fs', j).size, Image(fs, j).blocks)]
  {
    hide Ino, BlockAt;
    forall i | Live(owner, i) && i != j ensures Image(fs', i) == Image(fs, i) {
      ImageAgrees(fs, fs', i);
    }
    assert FileBlocks(fs', j) == FileBlocks(fs, j);
  }

  // ---- Creating an inode: sfs_makeobj ----

  function NewInode(fs: Fs, b: nat, kind: Half): Fs {
    fs.(vnodes := fs.vnodes[b := Vnode(ZeroInode().(kind := kind), true, 1)])
  }

  function EmptyImg(kind: Half): Img {
    Img(kind, 0, 0, seq<Block>(143, _ => ZeroBlock()))
  }

  lemma NewInodeView(fs: Fs, b: nat, kind: Half)
    ensures var fs' := NewInode(fs, b, kind);
            && (forall i: nat :: i != b ==> Ino(fs', i) == Ino(fs, i))
            && (forall i: nat, h :: i != b && 0 <= h < 143 ==> Ptr(fs', i, h) == Ptr(fs, i, h))
            && (forall i: nat, h :: i != b && 0 <= h < 143 ==> BlockAt(fs', i, h) == BlockAt(fs, i, h))
            && Ino(fs', b) == ZeroInode().(kind := kind)
            && (forall h :: 0 <= h < 143 ==> Ptr(fs', b, h) == 0)
            && Image(fs', b) == EmptyImg(kind)
  {
    hide DecodeInode, Words;
    var fs' := NewInode(fs, b, kind);
    assert forall h :: 0 <= h < 143 ==> Ptr(fs', b, h) == 0;
    assert FileBlocks(fs', b) == seq<Block>(143, _ => ZeroBlock());
    assert forall c: nat :: Blk(fs', c) == Blk(fs, c);
  }

  lemma NewInodeOwnership(fs: Fs, owner: Owner, fs': Fs, b: nat)
    requires PointersOwned(fs, owner) && OwnedReached(fs, owner) && Has(owner, b, Fresh)
    requires forall i: nat :: i != b ==> Ino(fs', i) == Ino(fs, i)
    requires forall i: nat, h :: i != b && 0 <= h < 143 ==> Ptr(fs', i, h) == Ptr(fs, i, h)
    requires Ino(fs', b).indirect == 0
    requires forall h :: 0 <= h < 143 ==> Ptr(fs', b, h) == 0
    ensures PointersOwned(fs', owner[b := InodeBlk]) && OwnedReached(fs', owner[b := InodeBlk])
  {
    hide Ino, Ptr;
    var owner' := owner[b := InodeBlk];
    assert forall i: nat :: Live(owner', i) <==> Live(owner, i) || i == b;
  }

  lemma NewInodeImages(fs: Fs, owner: Owner, fs': Fs, b: nat)
    requires Has(owner, b, Fresh)
    requires forall i: nat :: i != b ==> Ino(fs', i) == Ino(fs, i)
    requires forall i: nat, h :: i != b && 0 <= h < 143 ==> BlockAt(fs', i, h) == BlockAt(fs, i, h)
    ensures Images(fs', owner[b := InodeBlk]) == Images(fs, owner)[b := Image(fs', b)]
  {
    hide Ino, BlockAt, Image;
    var owner' := owner[b := InodeBlk];
    forall i | Live(owner, i) ensures Image(fs', i) == Image(fs, i) {
      ImageAgrees(fs, fs', i);
    }
    assert forall i: nat :: Live(owner', i) <==> Live(owner, i) || i == b;
  }

  lemma NewInodeRest(fs: Fs, owner: Owner, b: nat, kind: Half)
    requires VnodesCoherent(fs, owner) && FreshCleared(fs, owner) && Has(owner, b, Fresh)
    ensures VnodesCoherent(NewInode(fs, b, kind), owner[b := InodeBlk])
    ensures FreshCleared(NewInode(fs, b, kind), owner[b := InodeBlk])
    ensures Ino(NewInode(fs, b, kind), b).indirect == 0
  {
    hide DecodeInode;
    var owner' := owner[b := InodeBlk];
    assert forall c: nat :: Has(owner', c, Fresh) ==> Has(owner, c, Fresh);
  }

  // A cleared block becomes an empty file with no links, referenced once.
  lemma NewInodeStep(fs: Fs, owner: Owner, b: nat, kind: Half)
    requires Inv(fs, owner) && Has(owner, b, Fresh)
    ensures Inv(NewInode(fs, b, kind), owner[b := InodeBlk])
    ensures Images(NewInode(fs, b, kind), owner[b := InodeBlk]) == Images(fs, owner)[b := EmptyImg(kind)]
  {
    LayoutDisk(fs, owner);
    var fs' := NewInode(fs, b, kind);
    var owner' := owner[b := InodeBlk];
    assert fs'.nblocks == fs.nblocks && |fs'.disk| == |fs.disk| && Blk(fs', 0) == Blk(fs, 0);
    hide Ino, Ptr, PointersOwned, OwnedReached, VnodesCoherent, FreshCleared, BlockAt, Image, Images, NewInode,
      Reserved, Layout, EmptyImg;
    NewInodeRest(fs, owner, b, kind);
    NewInodeView(fs, b, kind);
    NewInodeOwnership(fs, owner, fs', b);
    NewInodeImages(fs, owner, fs', b);
    LayoutKept(fs, owner, fs', b, InodeBlk);
  }

  // ---- Discarding an inode: sfs_reclaim at link count 0 ----

  lemma FreeInodeOwnership(fs: Fs, owner: Owner, fs': Fs, j: nat)
    requires PointersOwned(fs, owner) && OwnedReached(fs, owner) && Live(owner, j)
    requires 0 in owner && Fixed(owner[0])
    requires forall i: nat :: i != j ==> Ino(fs', i) == Ino(fs, i)
    requires forall i: nat, h :: i != j && 0 <= h < 143 ==> Ptr(fs', i, h) == Ptr(fs, i, h)
    requires Ino(fs, j).indirect == 0 && forall h :: 0 <= h < 143 ==> Ptr(fs, j, h) == 0
    ensures PointersOwned(fs', owner - {j}) && OwnedReached(fs', owner - {j})
  {
    hide Ino, Ptr;
    var owner' := owner - {j};
    assert forall i: nat :: Live(owner', i) <==> Live(owner, i) && i != j;
  }

  lemma FreeInodeImages(fs: Fs, owner: Owner, fs': Fs, j: nat)
    requires forall i: nat :: i != j ==> Ino(fs', i) == Ino(fs, i)
    requires forall i: nat, h :: i != j && 0 <= h < 143 ==> BlockAt(fs', i, h) == BlockAt(fs, i, h)
    ensures Images(fs', owner - {j}) == Images(fs, owner) - {j}
  {
    hide Ino, BlockAt, Image;
    var owner' := owner - {j};
    forall i | Live(owner', i) ensures Image(fs', i) == Image(fs, i) {
      ImageAgrees(fs, fs', i);
    }
    assert forall i: nat :: Live(owner', i) <==> Live(owner, i) && i != j;
  }

  lemma UnloadView(fs: Fs, j: nat)
    ensures var fs' := Unload(fs, j);
            && (forall i: nat :: i != j ==> Ino(fs', i) == Ino(fs, i))
            && (forall i: nat, h :: i != j && 0 <= h < 143 ==> Ptr(fs', i, h) == Ptr(fs, i, h))
            && (forall i: nat, h :: i != j && 0 <= h < 143 ==> BlockAt(fs', i, h) == BlockAt(fs, i, h))
  {
    hide DecodeInode, Words;
    var fs' := Unload(fs, j);
    assert forall c: nat :: Blk(fs', c) == Blk(fs, c);
  }

  lemma FreeInodeRest(fs: Fs, owner: Owner, j: nat)
    requires VnodesCoherent(fs, owner) && FreshCleared(fs, owner)
    ensures VnodesCoherent(Unload(fs, j), owner - {j})
    ensures FreshCleared(Unload(fs, j), owner - {j})
  {
    hide DecodeInode;
    var owner' := owner - {j};
    assert forall c: nat :: Has(owner', c, Fresh) ==> Has(owner, c, Fresh);
  }

  // An inode that maps nothing goes, and takes no other file with it.
  lemma FreeInodeStep(fs: Fs, owner: Owner, j: nat)
    requires Inv(fs, owner) && j in fs.vnodes && j != 1
    requires Ino(fs, j).indirect == 0 && forall h :: 0 <= h < 143 ==> Ptr(fs, j, h) == 0
    ensures Inv(Unload(fs, j), owner - {j})
    ensures Images(Unload(fs, j), owner - {j}) == Images(fs, owner) - {j}
  {
    LayoutDisk(fs, owner);
    var fs' := Unload(fs, j);
    var owner' := owner - {j};
    FreeInodeRest(fs, owner, j);
    assert fs'.nblocks == fs.nblocks && |fs'.disk| == |fs.disk| && Blk(fs', 0) == Blk(fs, 0);
    hide Ino, Ptr, PointersOwned, OwnedReached, FreshCleared, BlockAt, Image, Images, Unload, Reserved, Layout;
    UnloadView(fs, j);
    FreeInodeOwnership(fs, owner, fs', j);
    FreeInodeImages(fs, owner, fs', j);
    LayoutKeptByRelease(fs, owner, fs', {j});
  }
}
