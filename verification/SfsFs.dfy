// The mounted filesystem object and the routines that allocate and map blocks.
// The panics and assertions of the code appear as assertions: each is proved
// never to go off.
module SfsCore {
  import opened SfsLayout
  import opened SfsBlocks
  import opened SfsSteps
  import opened SfsTruncate
  import opened SfsMap
  import opened Bitmaps

  // The error codes, and an assertion that does not hold.
  datatype Err = Ok | ENOSPC | EINVAL | ENOENT | EEXIST | ENAMETOOLONG | AssertionFailed

  lemma DiskFacts(fs: Fs, owner: Owner)
    requires Inv(fs, owner)
    ensures |fs.disk| == fs.nblocks <= MapSize(fs.nblocks) && fs.nblocks < 0x1_0000_0000
    ensures 0 in owner && Live(owner, 1) && fs.nblocks > 2
  {
    LayoutDisk(fs, owner);
  }

  ghost predicate NoFresh(owner: Owner) {
    forall b: nat :: !Has(owner, b, Fresh)
  }

  // Every block kept its role, and what was added is for file blocks lo to hi of inode j.
  ghost predicate Grown(o: Owner, o': Owner, j: nat, lo: nat, hi: nat) {
    && (forall b :: b in o ==> Has(o', b, o[b]))
    && (forall b :: b in o' && b !in o ==> AddedFor(o'[b], j, lo, hi))
  }

  predicate AddedFor(r: Role, j: nat, lo: nat, hi: nat) {
    match r
    case Data(i, k) => i == j && lo <= k < hi
    case Indirect(i) => i == j && hi > 15
    case _ => false
  }

  lemma GrownTwice(o: Owner, o1: Owner, o2: Owner, j: nat, lo: nat, hi: nat)
    requires Grown(o, o1, j, lo, hi) && Grown(o1, o2, j, lo, hi)
    ensures Grown(o, o2, j, lo, hi)
  {
    hide AddedFor;
    forall b | b in o2 && b !in o ensures AddedFor(o2[b], j, lo, hi) {
      if b in o1 { assert Has(o2, b, o1[b]); }
    }
  }

  lemma GrownWider(o: Owner, o': Owner, j: nat, lo: nat, hi: nat, lo': nat, hi': nat)
    requires Grown(o, o', j, lo, hi) && (lo' <= lo || hi <= lo) && hi <= hi'
    ensures Grown(o, o', j, lo', hi')
  {
  }

  lemma GrownOn(o: Owner, o1: Owner, o2: Owner, j: nat, lo: nat, hi: nat, lo1: nat, hi1: nat)
    requires Grown(o, o1, j, lo, hi) && Grown(o1, o2, j, lo1, hi1) && lo <= lo1 && hi1 <= hi
    ensures Grown(o, o2, j, lo, hi)
  {
    hide Grown;
    GrownWider(o1, o2, j, lo1, hi1, lo, hi);
    GrownTwice(o, o1, o2, j, lo, hi);
  }

  lemma GrownNone(o: Owner, o': Owner, j: nat, lo: nat)
    ensures forall hi: nat :: Grown(o, o, j, lo, hi)
    ensures Grown(o, o', j, lo, 0) ==> o' == o
  {
    if Grown(o, o', j, lo, 0) {
      assert forall b :: b in o' ==> b in o;
      assert o' == o;
    }
  }

  lemma WithIndirect(o: Owner, o': Owner, j: nat, k: nat, was: bool, doalloc: bool)
    requires Grown(o, o', j, 16, if was then 16 else 0) && k >= 15 && (was ==> doalloc)
    ensures Grown(o, o', j, k, if doalloc then k + 1 else 0)
  {
    hide Grown;
    if was {
      GrownWider(o, o', j, 16, 16, k, k + 1);
    } else {
      GrownWider(o, o', j, 16, 0, k, if doalloc then k + 1 else 0);
    }
  }

  lemma FreshUsed(owner: Owner, b: nat, r: Role)
    requires NoFresh(owner) && r != Fresh
    ensures NoFresh(owner[b := Fresh][b := r])
  {
    var o := owner[b := Fresh][b := r];
    forall c: nat ensures !Has(o, c, Fresh) {
      assert !Has(owner, c, Fresh);
    }
  }

  // A clear freemap bit is a block of the disk, and never block 0.
  lemma UnownedOnDisk(fs: Fs, owner: Owner, i: nat)
    requires Inv(fs, owner) && i < MapSize(fs.nblocks) && i !in owner
    ensures 0 < i < fs.nblocks
  {
    LayoutDisk(fs, owner);
    assert fs.nblocks <= i ==> Reserved(fs.nblocks, i);
  }

  lemma RefsPutInode(fs: Fs, j: nat, n: Inode)
    requires j in fs.vnodes
    ensures Refs(PutInode(fs, j, n)) == Refs(fs)
  {
  }

  // A mapped block is on the disk and has a role.
  lemma PointerUsed(fs: Fs, owner: Owner, j: nat, k: nat)
    requires Inv(fs, owner) && j in fs.vnodes && k < 143
    ensures Ptr(fs, j, k) != 0 ==> Ptr(fs, j, k) < fs.nblocks && Has(owner, Ptr(fs, j, k), Data(j, k))
  {
    hide Ptr, Ino, BitBlocks, MapSize, OwnedReached, FreshCleared;
    IndirectOnDisk(fs, owner, j);
  }

  lemma IndirectUsed(fs: Fs, owner: Owner, j: nat)
    requires Inv(fs, owner) && j in fs.vnodes
    ensures Ino(fs, j).indirect != 0 ==> Ino(fs, j).indirect < fs.nblocks && Has(owner, Ino(fs, j).indirect, Indirect(j))
  {
    hide Ptr, Ino, BitBlocks, MapSize, OwnedReached, FreshCleared;
    IndirectOnDisk(fs, owner, j);
  }

  lemma RefsDiskOnly(fs: Fs, fs': Fs)
    requires fs'.vnodes == fs.vnodes
    ensures Refs(fs') == Refs(fs)
  {
  }

  class SfsFs {
    const nblocks: nat
    const freemap: Bitmap
    var disk: seq<Block>
    // The vnode table, by inode number.
    var vnodes: map<nat, Vnode>
    ghost var owner: Owner

    // sfs_domount: the superblock and the freemap are read from the disk, and no vnode is
    // loaded.
    constructor Mount(d: seq<Block>, ghost o: Owner)
      requires |d| > 0 && Inv(Fs(WordAt(d[0], 1), d, map[]), o)
      requires 2 + BitBlocks(WordAt(d[0], 1)) <= |d| && MapOnDisk(d, WordAt(d[0], 1)) == o.Keys
      ensures nblocks == WordAt(d[0], 1) && disk == d && vnodes == map[] && owner == o
      ensures fresh(freemap) && fresh(freemap.v) && Valid()
    {
      hide Inv, BitBlocks, MapSize, MapBytes;
      var n := WordAt(d[0], 1);
      var fm := new Bitmap(MapSize(n));
      MapLength(n);
      LoadMap(fm, d, BitBlocks(n));
      nblocks := n;
      freemap := fm;
      disk := d;
      vnodes := map[];
      owner := o;
    }

    ghost function View(): Fs
      reads this
    {
      Fs(nblocks, disk, vnodes)
    }

    // Between calls: the freemap marks exactly the blocks that have a role.
    ghost predicate Valid()
      reads this, freemap.v
    {
      && freemap.Valid() && freemap.nbits == MapSize(nblocks)
      && freemap.Bits() == owner.Keys
      && Inv(View(), owner)
    }

    // Every file, by inode number.
    ghost function Files(): map<nat, Img>
      reads this
    {
      Images(View(), owner)
    }

    ghost function Counts(): map<nat, nat>
      reads this
    {
      Refs(View())
    }

    // No block is allocated without being in use.
    ghost predicate Settled()
      reads this
    {
      NoFresh(owner)
    }

    // sfs_balloc
    method Balloc() returns (e: Err, b: nat)
      requires Valid()
      modifies this`disk, this`owner, freemap.v
      ensures Valid() && Files() == old(Files())
      ensures e == Ok || e == ENOSPC
      ensures e == Ok ==> b != 0 && b < nblocks && b !in old(owner) && owner == old(owner)[b := Fresh]
      ensures e == Ok ==> forall c: nat :: c < b ==> c in old(owner)
      ensures e == Ok ==> |old(disk)| == nblocks && disk == old(disk)[b := ZeroBlock()]
      ensures e == ENOSPC ==> disk == old(disk) && owner == old(owner)
      ensures e == ENOSPC ==> forall c: nat :: c < nblocks ==> c in owner
    {
      hide Inv, Images, MapSize, Bitmap.Bits, Bitmap.Valid, ZeroBlock;
      ghost var fs := View();
      DiskFacts(fs, owner);
      var r := freemap.Alloc();
      match r
      case NoSpace =>
        assert View() == fs;
        return ENOSPC, 0;
      case Found(i) =>
        // "balloc: invalid block"
        assert i < nblocks by { UnownedOnDisk(fs, owner, i); }
        AllocStep(fs, owner, i);
        owner := owner[i := Fresh];
        disk := disk[i := ZeroBlock()];
        assert View() == PutBlock(fs, i, ZeroBlock());
        return Ok, i;
    }

    // sfs_bused
    method Bused(b: nat) returns (used: bool)
      requires Valid() && b < nblocks
      ensures used <==> b in owner
    {
      hide Inv;
      DiskFacts(View(), owner);
      used := freemap.IsSet(b);
    }

    // sfs_bmap: a block for the hole at direct block k.
    method FillDirect(j: nat, k: nat) returns (e: Err, block: nat)
      requires Valid() && Settled() && j in vnodes && k < 15 && Ptr(View(), j, k) == 0
      modifies this`disk, this`vnodes, this`owner, freemap.v
      ensures Valid() && Settled() && Files() == old(Files()) && Counts() == old(Counts())
      ensures e == Ok || e == ENOSPC
      ensures e == Ok ==> 0 != block == Ptr(View(), j, k)
      ensures e == ENOSPC ==> View() == old(View()) && forall c: nat :: c < nblocks ==> c in owner
      ensures Grown(old(owner), owner, j, k, k + 1)
    {
      hide Inv, Images, MapSize, Bitmap.Bits, Bitmap.Valid, ZeroBlock, Refs, DecodeInode, Words, NoFresh;
      ghost var o := owner;
      DiskFacts(View(), owner);
      e, block := Balloc();
      if e != Ok {
        return;
      }
      ghost var fs1 := View();
      var n := vnodes[j].inode.(direct := vnodes[j].inode.direct[k := block]);
      AttachDirectStep(fs1, owner, j, k, block);
      RefsPutInode(fs1, j, n);
      FreshUsed(o, block, Data(j, k));
      // Remember the block, mark the inode dirty.
      vnodes := vnodes[j := vnodes[j].(inode := n, dirty := true)];
      owner := owner[block := Data(j, k)];
      assert View() == PutInode(fs1, j, n);
    }

    // sfs_bmap, first half: file blocks the inode maps directly.
    method BmapDirect(j: nat, k: nat, doalloc: bool) returns (e: Err, block: nat)
      requires Valid() && Settled() && j in vnodes && k < 15
      modifies this`disk, this`vnodes, this`owner, freemap.v
      ensures Valid() && Settled() && Files() == old(Files()) && Counts() == old(Counts())
      ensures e == Ok || e == ENOSPC
      ensures e == Ok ==> block == Ptr(View(), j, k) && block < nblocks && (doalloc ==> block != 0)
      ensures e == ENOSPC ==> doalloc && Ptr(View(), j, k) == 0 && forall c: nat :: c < nblocks ==> c in owner
      ensures !doalloc || old(Ptr(View(), j, k)) != 0 ==> e == Ok && View() == old(View())
      ensures Grown(old(owner), owner, j, k, if doalloc then k + 1 else 0)
    {
      hide Inv, Images, MapSize, Bitmap.Bits, Bitmap.Valid, DecodeInode, Words, NoFresh;
      DiskFacts(View(), owner);
      e, block := Ok, vnodes[j].inode.direct[k];
      if block == 0 && doalloc {
        e, block := FillDirect(j, k);
        if e != Ok {
          return;
        }
      }
      CheckUsed(j, k, block);
    }

    // sfs_bmap: an indirect block for an inode without one.
    method FillIndirect(j: nat) returns (e: Err, idblock: nat)
      requires Valid() && Settled() && j in vnodes && Ino(View(), j).indirect == 0
      modifies this`disk, this`vnodes, this`owner, freemap.v
      ensures Valid() && Settled() && Files() == old(Files()) && Counts() == old(Counts())
      ensures e == Ok || e == ENOSPC
      ensures e == Ok ==> 0 != idblock == Ino(View(), j).indirect < nblocks && Blk(View(), idblock) == ZeroBlock()
      ensures e == ENOSPC ==> View() == old(View()) && forall c: nat :: c < nblocks ==> c in owner
      ensures Grown(old(owner), owner, j, 16, 16)
    {
      hide Inv, Images, MapSize, Bitmap.Bits, Bitmap.Valid, ZeroBlock, Refs, DecodeInode, Words, NoFresh;
      ghost var o := owner;
      DiskFacts(View(), owner);
      e, idblock := Balloc();
      if e != Ok {
        return;
      }
      ghost var fs1 := View();
      var n := vnodes[j].inode.(indirect := idblock);
      AttachIndirectStep(fs1, owner, j, idblock);
      RefsPutInode(fs1, j, n);
      FreshUsed(o, idblock, Indirect(j));
      vnodes := vnodes[j := vnodes[j].(inode := n, dirty := true)];
      owner := owner[idblock := Indirect(j)];
      assert View() == PutInode(fs1, j, n);
    }

    // sfs_bmap: a block for the hole at indirect block k, entered in the buffer
    // that holds the indirect block, which is then written back.
    method FillEntry(j: nat, k: nat, idbuf: WordBlock) returns (e: Err, block: nat)
      requires Valid() && Settled() && j in vnodes && 15 <= k < 143 && Ptr(View(), j, k) == 0
      requires 0 != Ino(View(), j).indirect < nblocks && idbuf == Words(Blk(View(), Ino(View(), j).indirect))
      modifies this`disk, this`vnodes, this`owner, freemap.v
      ensures Valid() && Settled() && Files() == old(Files()) && Counts() == old(Counts())
      ensures e == Ok || e == ENOSPC
      ensures e == Ok ==> 0 != block == Ptr(View(), j, k)
      ensures e == ENOSPC ==> View() == old(View()) && forall c: nat :: c < nblocks ==> c in owner
      ensures Grown(old(owner), owner, j, k, k + 1)
    {
      hide Inv, Images, MapSize, Bitmap.Bits, Bitmap.Valid, ZeroBlock, Refs, DecodeInode, Words, NoFresh;
      ghost var o, fs := owner, View();
      DiskFacts(fs, owner);
      var idblock := vnodes[j].inode.indirect;
      IndirectUsed(fs, owner, j);
      e, block := Balloc();
      if e != Ok {
        return;
      }
      assert Blk(View(), idblock) == Blk(fs, idblock);
      FreshUsed(o, block, Data(j, k));
      EnterEntry(j, k, idblock, idbuf, block);
    }

    // The write-back of the indirect block with its new entry.
    method EnterEntry(j: nat, k: nat, idblock: nat, idbuf: WordBlock, block: nat)
      requires Valid() && j in vnodes && 15 <= k < 143 && Has(owner, block, Fresh) && block < nblocks
      requires 0 != idblock == Ino(View(), j).indirect < nblocks && Ptr(View(), j, k) == 0
      requires idbuf == Words(Blk(View(), idblock))
      modifies this`disk, this`owner
      ensures Valid() && Files() == old(Files()) && Counts() == old(Counts()) && owner == old(owner)[block := Data(j, k)]
      ensures block == Ptr(View(), j, k)
    {
      hide Inv, Images, MapSize, Bitmap.Bits, Bitmap.Valid, Refs, DecodeInode, Words, Bytes;
      ghost var fs := View();
      DiskFacts(fs, owner);
      AttachEntryStep(fs, owner, j, k, block);
      RefsDiskOnly(fs, PutEntry(fs, j, k, block));
      disk := disk[idblock := Bytes(idbuf[k - 15 := block])];
      owner := owner[block := Data(j, k)];
      assert View() == PutEntry(fs, j, k, block);
    }

    // sfs_bmap: the indirect block in a buffer, allocated first if need be.
    method LoadIndirect(j: nat) returns (e: Err, idbuf: WordBlock)
      requires Valid() && Settled() && j in vnodes
      modifies this`disk, this`vnodes, this`owner, freemap.v
      ensures Valid() && Settled() && Files() == old(Files()) && Counts() == old(Counts())
      ensures e == Ok || e == ENOSPC
      ensures e == Ok ==> 0 != Ino(View(), j).indirect < nblocks && idbuf == Words(Blk(View(), Ino(View(), j).indirect))
      ensures old(Ino(View(), j).indirect) != 0 ==> e == Ok && View() == old(View())
      ensures e == ENOSPC ==> View() == old(View()) && forall c: nat :: c < nblocks ==> c in owner
      ensures Grown(old(owner), owner, j, 16, if old(Ino(View(), j).indirect) == 0 then 16 else 0)
    {
      hide Inv, Images, MapSize, Bitmap.Bits, Bitmap.Valid, DecodeInode, Words, NoFresh, ZeroBlock, Refs;
      IndirectUsed(View(), owner, j);
      DiskFacts(View(), owner);
      var idblock: nat := vnodes[j].inode.indirect;
      if idblock == 0 {
        e, idblock := FillIndirect(j);
        // The buffer is cleared, as the new block was.
        idbuf := Words(ZeroBlock());
      } else {
        e, idbuf := Ok, Words(disk[idblock]);
      }
    }

    // sfs_bmap, second half: file blocks reached through the indirect block.
    method BmapIndirect(j: nat, k: nat, doalloc: bool) returns (e: Err, block: nat)
      requires Valid() && Settled() && j in vnodes && 15 <= k < 143
      modifies this`disk, this`vnodes, this`owner, freemap.v
      ensures Valid() && Settled() && Files() == old(Files()) && Counts() == old(Counts())
      ensures e == Ok || e == ENOSPC
      ensures e == Ok ==> block == Ptr(View(), j, k) && block < nblocks && (doalloc ==> block != 0)
      ensures e == ENOSPC ==> doalloc && Ptr(View(), j, k) == 0 && forall c: nat :: c < nblocks ==> c in owner
      ensures !doalloc || old(Ptr(View(), j, k)) != 0 ==> e == Ok && View() == old(View())
      ensures Grown(old(owner), owner, j, k, if doalloc then k + 1 else 0)
    {
      hide Inv, Images, MapSize, Bitmap.Bits, Bitmap.Valid, DecodeInode, Words, NoFresh, ZeroBlock, Refs, Grown;
      DiskFacts(View(), owner);
      ghost var o := owner;
      GrownNone(o, o, j, k);
      if vnodes[j].inode.indirect == 0 && !doalloc {
        // As if the indirect block were all zeros.
        return Ok, 0;
      }
      var idbuf: WordBlock;
      e, idbuf := LoadIndirect(j);
      ghost var o1 := owner;
      WithIndirect(o, o1, j, k, old(Ino(View(), j).indirect) == 0, doalloc);
      if e != Ok {
        return e, 0;
      }
      assert j in Counts();
      block := idbuf[k - 15];
      assert block == Ptr(View(), j, k);
      if block == 0 && doalloc {
        e, block := FillEntry(j, k, idbuf);
        GrownTwice(o, o1, owner, j, k, k + 1);
        if e != Ok {
          return;
        }
      }
      CheckUsed(j, k, block);
    }

    // The "marked free" panic at the end of sfs_bmap.
    method CheckUsed(j: nat, k: nat, block: nat)
      requires Valid() && j in Counts() && k < 143 && block == Ptr(View(), j, k)
      ensures block < nblocks && (block != 0 ==> block in owner)
    {
      hide Inv, Images, MapSize, Bitmap.Bits, Bitmap.Valid, Ptr;
      DiskFacts(View(), owner);
      PointerUsed(View(), owner, j, k);
      if block != 0 {
        var used := Bused(block);
        assert used;
      }
    }

    // sfs_bmap. Mapping a block, allocated or not, changes no file; a hole is
    // filled exactly when asked to; only running out of blocks or of block map fails.
    method Bmap(j: nat, fileblock: nat, doalloc: bool) returns (e: Err, diskblock: nat)
      requires Valid() && Settled() && j in vnodes
      modifies this`disk, this`vnodes, this`owner, freemap.v
      ensures Valid() && Settled() && Files() == old(Files()) && Counts() == old(Counts())
      ensures e == Ok || e == ENOSPC || e == EINVAL
      ensures e == EINVAL <==> fileblock >= 143
      ensures e == Ok ==> diskblock == Ptr(View(), j, fileblock) && diskblock < nblocks && (doalloc ==> diskblock != 0)
      ensures e == ENOSPC ==> doalloc && Ptr(View(), j, fileblock) == 0 && forall c: nat :: c < nblocks ==> c in owner
      ensures fileblock < 143 && (!doalloc || old(Ptr(View(), j, fileblock)) != 0) ==> e == Ok
      ensures !doalloc || (fileblock < 143 && old(Ptr(View(), j, fileblock)) != 0) ==> View() == old(View())
      ensures Grown(old(owner), owner, j, fileblock, if doalloc then fileblock + 1 else 0)
    {
      hide Inv, Images, MapSize, Bitmap.Bits, Bitmap.Valid, Ptr, NoFresh, Refs;
      if fileblock < 15 {
        e, diskblock := BmapDirect(j, fileblock, doalloc);
        return;
      }
      var idnum := (fileblock - 15) / 128;
      if idnum > 0 {
        return EINVAL, 0;
      }
      e, diskblock := BmapIndirect(j, fileblock, doalloc);
    }
  }

  // sfs_domount: what has not the magic number is not a filesystem; what has is taken to
  // be in order.
  method DoMount(d: seq<Block>, ghost o: Owner) returns (e: Err, sfs: SfsFs?)
    requires |d| > 0
    requires WordAt(d[0], 0) == MAGIC ==>
               && Inv(Fs(WordAt(d[0], 1), d, map[]), o)
               && 2 + BitBlocks(WordAt(d[0], 1)) <= |d| && MapOnDisk(d, WordAt(d[0], 1)) == o.Keys
    ensures e == if WordAt(d[0], 0) == MAGIC then Ok else EINVAL
    ensures e == Ok ==> sfs != null && fresh(sfs) && fresh(sfs.freemap) && fresh(sfs.freemap.v) && sfs.Valid()
    ensures e == Ok ==> sfs.nblocks == WordAt(d[0], 1) && sfs.disk == d && sfs.vnodes == map[] && sfs.owner == o
  {
    hide Inv, BitBlocks, MapSize, MapBytes, WordAt;
    if WordAt(d[0], 0) != MAGIC {
      return EINVAL, null;
    }
    sfs := new SfsFs.Mount(d, o);
    e := Ok;
  }
}
