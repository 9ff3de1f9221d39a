// A file on an eight-block disk that truncation leaves with a block past its end.
module SfsLeftover {
  import opened SfsLayout
  import opened SfsBlocks
  import opened SfsSteps
  import opened SfsTruncate
  import opened SfsCore
  import opened SfsVnodeOps
  import opened SfsImage

  // What a stage of the construction has: an invariant state whose used blocks are known.
  ghost predicate Stage(fs: Fs, o: Owner, used: nat) {
    && Inv(fs, o) && NoFresh(o) && fs.nblocks == 8 && |fs.disk| == 8
    && forall b: nat :: b < 8 ==> (b in o <==> b < used)
  }

  // mksfs on eight blocks.
  lemma Formatted() returns (fs: Fs, o: Owner)
    ensures Stage(fs, o, 3)
  {
    hide DecodeInode, EncodeInode, Inv, NoFresh, EncodeSuper, IsSuper, ImageOwner;
    var root: Block := EncodeInode(RootInode());
    var d := seq<Block>(8, _ => ZeroBlock())[0 := EncodeSuper(8, [])][1 := root];
    InodeRoundTrip(RootInode());
    ImageInv(8, d);
    fs, o := Fs(8, d, map[]), ImageOwner(8);
  }

  // sfs_makeobj puts an empty file in block 3.
  lemma Created(fs: Fs, o: Owner) returns (fs': Fs, o': Owner)
    requires Stage(fs, o, 3)
    ensures Stage(fs', o', 4) && 3 in fs'.vnodes && Ino(fs', 3).indirect == 0
  {
    hide Inv, NoFresh, Images;
    AllocStep(fs, o, 3);
    var fs1, o1 := PutBlock(fs, 3, ZeroBlock()), o[3 := Fresh];
    NewInodeStep(fs1, o1, 3, TYPE_FILE);
    FreshUsed(o, 3, InodeBlk);
    fs', o' := NewInode(fs1, 3, TYPE_FILE), o1[3 := InodeBlk];
    NewInodeView(fs1, 3, TYPE_FILE);
  }

  // Writing to file block 15 takes block 4 as the indirect block,
  lemma Indirected(fs: Fs, o: Owner) returns (fs': Fs, o': Owner)
    requires Stage(fs, o, 4) && 3 in fs.vnodes && Ino(fs, 3).indirect == 0
    ensures Stage(fs', o', 5) && 3 in fs'.vnodes && Ino(fs', 3).indirect == 4 && Ptr(fs', 3, 15) == 0
  {
    hide Inv, NoFresh, Images, DecodeInode, ZeroBlock, Ptr, Ino;
    LoadedLive(fs, o, 3);
    AllocStep(fs, o, 4);
    var fs1, o1 := PutBlock(fs, 4, ZeroBlock()), o[4 := Fresh];
    NoIndirect(fs, fs1);
    AttachIndirectStep(fs1, o1, 3, 4);
    FreshUsed(o, 4, Indirect(3));
    fs', o' := PutInode(fs1, 3, Ino(fs1, 3).(indirect := 4)), o1[4 := Indirect(3)];
    InoPut(fs1, 3, Ino(fs1, 3).(indirect := 4));
    assert Live(o1, 3);
  }

  lemma NoIndirect(fs: Fs, fs1: Fs)
    requires 3 in fs.vnodes && fs1.vnodes == fs.vnodes && Ino(fs, 3).indirect == 0
    ensures Ino(fs1, 3) == Ino(fs, 3) && Ptr(fs1, 3, 15) == 0
  {
    hide DecodeInode;
  }

  lemma InoPut(fs: Fs, j: nat, n: Inode)
    requires j in fs.vnodes
    ensures Ino(PutInode(fs, j, n), j) == n
  {
  }

  // and block 5 for the data.
  lemma Mapped15(fs: Fs, o: Owner) returns (fs': Fs, o': Owner)
    requires Stage(fs, o, 5) && 3 in fs.vnodes && Ino(fs, 3).indirect == 4 && Ptr(fs, 3, 15) == 0
    ensures Stage(fs', o', 6) && 3 in fs'.vnodes && Ptr(fs', 3, 15) == 5
  {
    hide Inv, NoFresh, Images, DecodeInode, ZeroBlock, Words, Bytes;
    AllocStep(fs, o, 5);
    var fs1, o1 := PutBlock(fs, 5, ZeroBlock()), o[5 := Fresh];
    assert Ino(fs1, 3) == Ino(fs, 3) && Blk(fs1, 4) == Blk(fs, 4);
    AttachEntryStep(fs1, o1, 3, 15, 5);
    FreshUsed(o, 5, Data(3, 15));
    fs', o' := PutEntry(fs1, 3, 15, 5), o1[5 := Data(3, 15)];
  }

  lemma LoadedLive(fs: Fs, o: Owner, j: nat)
    requires Inv(fs, o) && j in fs.vnodes
    ensures Live(o, j)
  {
  }

  // Cut to 7680 bytes, 15 blocks, the file still has its sixteenth block mapped.
  lemma LeftMapped() returns (fs: Fs, o: Owner, fs': Fs)
    ensures Inv(fs, o) && NoFresh(o) && 3 in fs.vnodes && Ptr(fs, 3, 15) == 5 && KeepsExtra(fs, 3, 7680)
    ensures fs' == Truncate(fs, 3, 7680) && BlockLen(7680) == 15 && Ptr(fs', 3, 15) == 5
  {
    hide Inv, NoFresh, Ino, Ptr, Truncate, PointersCut;
    fs, o := Formatted();
    fs, o := Created(fs, o);
    fs, o := Indirected(fs, o);
    fs, o := Mapped15(fs, o);
    fs' := Truncate(fs, 3, 7680);
    TruncateStep(fs, o, 3, 7680);
    CutKeeps(fs, o, fs');
  }

  lemma CutKeeps(fs: Fs, o: Owner, fs': Fs)
    requires PointersCut(fs, o, fs', 3, 15)
    ensures Ptr(fs', 3, 15) == Ptr(fs, 3, 15)
  {
    hide Ino, Ptr, DropsIndirect;
  }
}
