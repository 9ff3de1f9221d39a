// Writing everything back: what is on disk after a sync is the whole filesystem.
module SfsSync {
  import opened SfsLayout
  import opened SfsBlocks
  import opened SfsSteps
  import opened SfsMap
  import opened SfsCore
  import opened SfsVnodeOps
  import opened Bitmaps

  ghost predicate AllClean(vnodes: map<nat, Vnode>) {
    forall j :: j in vnodes ==> !vnodes[j].dirty
  }

  // Only freemap blocks differ.
  ghost predicate SameButMap(fs: Fs, fs': Fs) {
    && fs'.nblocks == fs.nblocks && |fs'.disk| == |fs.disk| && fs'.vnodes == fs.vnodes
    && forall b: nat :: !(2 <= b < 2 + BitBlocks(fs.nblocks)) ==> Blk(fs', b) == Blk(fs, b)
  }

  lemma MapBlocksAre(fs: Fs, owner: Owner, b: nat)
    requires Layout(fs, owner) && b in owner && !owner[b].FreeMap?
    ensures !(2 <= b < 2 + BitBlocks(fs.nblocks))
  {
    hide BitBlocks, MapSize, IsSuper;
    if Reserved(fs.nblocks, b) { assert Has(owner, b, ReservedRole(fs.nblocks, b)); }
  }

  // Writing the freemap touches no file.
  lemma MapStep(fs: Fs, owner: Owner, fs': Fs)
    requires Inv(fs, owner) && SameButMap(fs, fs')
    ensures Inv(fs', owner) && Images(fs', owner) == Images(fs, owner)
  {
    hide BitBlocks, MapSize, Images, Layout, PointersOwned, OwnedReached, DecodeInode, Blk;
    forall b: nat | b in owner && !owner[b].FreeMap? ensures Blk(fs', b) == Blk(fs, b) {
      MapBlocksAre(fs, owner, b);
    }
    forall j | Live(owner, j) ensures Ino(fs', j) == Ino(fs, j) {}
    SameInodesStep(fs, owner, fs');
  }

  // With every vnode written back, the disk alone says what the files are.
  lemma DropVnodes(fs: Fs, owner: Owner)
    requires Inv(fs, owner) && AllClean(fs.vnodes)
    ensures Inv(fs.(vnodes := map[]), owner) && Images(fs.(vnodes := map[]), owner) == Images(fs, owner)
  {
    hide BitBlocks, MapSize, Images, Layout, PointersOwned, OwnedReached, DecodeInode, Blk;
    var fs' := fs.(vnodes := map[]);
    SameDisk(fs, fs');
    forall j | Live(owner, j) ensures Ino(fs', j) == Ino(fs, j) {}
    SameInodesStep(fs, owner, fs');
  }

  lemma SameDisk(fs: Fs, fs': Fs)
    requires fs'.disk == fs.disk
    ensures forall b: nat :: Blk(fs', b) == Blk(fs, b)
  {
  }

  // The first loop of sfs_sync: every loaded vnode is written back.
  method SyncVnodes(sfs: SfsFs)
    requires sfs.Valid()
    modifies sfs`disk, sfs`vnodes
    ensures sfs.Valid() && sfs.Files() == old(sfs.Files()) && sfs.Counts() == old(sfs.Counts())
    ensures AllClean(sfs.vnodes)
  {
    hide SfsFs.Valid, SfsFs.Files, SfsFs.Counts, SamePointers;
    var todo := sfs.vnodes.Keys;
    while todo != {}
      invariant sfs.Valid() && sfs.Files() == old(sfs.Files()) && sfs.Counts() == old(sfs.Counts())
      invariant todo <= sfs.vnodes.Keys
      invariant forall j :: j in sfs.vnodes && j !in todo ==> !sfs.vnodes[j].dirty
    {
      var j :| j in todo;
      SyncInode(sfs, j);
      todo := todo - {j};
    }
  }

  // sfs_sync: the files are as they were, and the freemap on disk marks exactly the
  // blocks in use.
  method Sync(sfs: SfsFs)
    requires sfs.Valid()
    modifies sfs`disk, sfs`vnodes
    ensures sfs.Valid() && sfs.Files() == old(sfs.Files()) && sfs.Counts() == old(sfs.Counts())
    ensures AllClean(sfs.vnodes)
    ensures 2 + BitBlocks(sfs.nblocks) <= |sfs.disk| && MapOnDisk(sfs.disk, sfs.nblocks) == sfs.owner.Keys
  {
    hide Inv, Images, BitBlocks, MapSize, MapBytes, BitsOf, Refs, Leftover, AllClean;
    SyncVnodes(sfs);
    ghost var fs := sfs.View();
    MapFits(fs, sfs.owner);
    MapLength(sfs.nblocks);
    sfs.disk := SaveMap(sfs.freemap, sfs.disk, BitBlocks(sfs.nblocks));
    MapRoundTrip(fs.disk, sfs.freemap.v[..], BitBlocks(sfs.nblocks));
    MapStep(fs, sfs.owner, sfs.View());
    RefsDiskOnly(fs, sfs.View());
  }

  lemma MapFits(fs: Fs, owner: Owner)
    requires Inv(fs, owner)
    ensures 2 + BitBlocks(fs.nblocks) <= |fs.disk|
  {
  }

  // A filesystem synced and mounted again from its disk has the same files.
  method SyncAndRemount(sfs: SfsFs) returns (again: SfsFs)
    requires sfs.Valid() && sfs.Settled()
    modifies sfs`disk, sfs`vnodes
    ensures fresh(again) && again.Valid() && again.Settled() && again.nblocks == sfs.nblocks
    ensures again.Files() == old(sfs.Files()) && again.Counts() == map[]
  {
    hide Inv, Images, BitBlocks, MapSize, MapBytes, BitsOf, Bitmap.Valid, Bitmap.Bits, NoFresh;
    Sync(sfs);
    DropVnodes(sfs.View(), sfs.owner);
    SuperOnDisk(sfs.View(), sfs.owner);
    var e, mounted := DoMount(sfs.disk, sfs.owner);
    again := mounted;
    assert again.View() == sfs.View().(vnodes := map[]);
  }

  lemma SuperOnDisk(fs: Fs, owner: Owner)
    requires Inv(fs, owner)
    ensures |fs.disk| > 0 && WordAt(fs.disk[0], 0) == MAGIC && WordAt(fs.disk[0], 1) == fs.nblocks
  {
    hide WordAt;
  }
}
