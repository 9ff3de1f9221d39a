// The freemap, said without the owner map: a bit is set exactly when its block
// has a role, read off the disk and the vnodes, and no block has two.
module SfsOwnership {
  import opened SfsLayout
  import opened SfsBlocks
  import opened SfsCore
  import opened SfsDir
  import opened SfsTree
  import opened SfsNames
  import opened SfsRun
  import opened Bitmaps

  // Block b is used as r, as far as the disk and the loaded inodes can tell.
  ghost predicate Plays(fs: Fs, live: set<nat>, b: nat, r: Role) {
    match r
    case Super => b == 0
    case FreeMap => 2 <= b < 2 + BitBlocks(fs.nblocks)
    case Beyond => fs.nblocks <= b < MapSize(fs.nblocks)
    case Fresh => false
    case InodeBlk => b in live
    case Indirect(j) => j in live && 0 != b == Ino(fs, j).indirect
    case Data(j, k) => j in live && k < 143 && 0 != b == Ptr(fs, j, k)
  }

  ghost function LiveSet(owner: Owner): (s: set<nat>)
    ensures forall j :: j in s <==> Live(owner, j)
  {
    set j | j in owner && Live(owner, j)
  }

  lemma RoleIsOwner(fs: Fs, owner: Owner, b: nat, r: Role)
    requires Inv(fs, owner) && NoFresh(owner)
    ensures Plays(fs, LiveSet(owner), b, r) <==> Has(owner, b, r)
  {
    hide Ino, Ptr, BitBlocks, MapSize, VnodesCoherent, FreshCleared;
    assert !Has(owner, b, Fresh);
    LayoutDisk(fs, owner);
    if Reserved(fs.nblocks, b) { assert Has(owner, b, ReservedRole(fs.nblocks, b)); }
    BitBlocksFit(fs, owner);
  }

  lemma BitBlocksFit(fs: Fs, owner: Owner)
    requires Layout(fs, owner)
    ensures 2 + BitBlocks(fs.nblocks) <= fs.nblocks <= MapSize(fs.nblocks)
  {
  }

  // The root directory as the disk and the vnode table have it.
  ghost function Bindings(fs: Fs): map<Name, nat> {
    var root := Image(fs, 1);
    if DirOk(root) && NamesUnique(Entries(root)) then Directory(Entries(root)) else map[]
  }

  // The inodes something leads to: the root, the files with a name, the files in hand.
  ghost function Led(fs: Fs): set<nat> {
    {1} + Bindings(fs).Values + fs.vnodes.Keys
  }

  lemma BindingsAre(sfs: SfsFs)
    requires Ready(sfs)
    ensures Bindings(sfs.View()) == NamesOf(sfs)
  {
    hide TreeOk, Names, Directory, Entries, NamesUnique, Image, SfsFs.Valid, SfsFs.Settled;
    TreeFacts(sfs.Files(), sfs.Counts());
  }

  // Inode blocks are in use exactly while something leads to them.
  lemma LedIsLive(sfs: SfsFs)
    requires Ready(sfs)
    ensures Led(sfs.View()) == LiveSet(sfs.owner)
  {
    hide TreeOk, Names, Bindings, LiveSet, Image, SfsFs.Valid, SfsFs.Settled;
    BindingsAre(sfs);
    TreeFacts(sfs.Files(), sfs.Counts());
    forall j: nat ensures j in Led(sfs.View()) <==> j in LiveSet(sfs.owner) {
      if j != 1 { LivesIffLed(sfs.Files(), sfs.Counts(), j); }
      assert j in LiveSet(sfs.owner) <==> j in sfs.Files();
      assert j in sfs.Counts() <==> j in sfs.vnodes;
    }
  }

  // Between operations, every bit of the freemap is set iff its block has a role,
  // and then it has only that one: no block is shared, leaked or free while in use, and
  // no inode block is kept that nothing leads to.
  lemma ExactlyOneRole(sfs: SfsFs, b: nat)
    requires Ready(sfs)
    ensures b in sfs.freemap.Bits() <==> exists r :: Plays(sfs.View(), Led(sfs.View()), b, r)
    ensures forall r, r' :: Plays(sfs.View(), Led(sfs.View()), b, r) && Plays(sfs.View(), Led(sfs.View()), b, r') ==> r == r'
  {
    hide Inv, Plays, NoFresh, Bitmap.Bits, Bitmap.Valid, Image, TreeOk, Led, LiveSet;
    var fs, o := sfs.View(), sfs.owner;
    LedIsLive(sfs);
    forall r ensures Plays(fs, Led(fs), b, r) <==> Has(o, b, r) {
      RoleIsOwner(fs, o, b, r);
    }
    if b in o { assert Plays(fs, Led(fs), b, o[b]); }
  }
}
