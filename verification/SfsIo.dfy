// File-level I/O: partial blocks, whole blocks, and whole transfers.
module SfsIo {
  import opened SfsLayout
  import opened SfsBlocks
  import opened SfsSteps
  import opened SfsBytes
  import opened SfsCore
  import opened Bitmaps
  import opened Uios

  type Files = map<nat, Img>

  // m bytes passed between file j, from the uio's offset on, and the uio's buffer.
  ghost predicate Moved(reading: bool, f0: Files, f1: Files, j: nat, u0: UioState, u1: UioState, m: nat) {
    && j in f0 && UioOk(u0) && m <= u0.resid
    && (m > 0 ==> u0.offset + m <= 73216)
    && (reading ==>
          && f1 == f0
          && (m > 0 ==> u1 == Advance(u0, m, Splice(u0.kbuf, u0.base, Slice(f0[j].blocks, u0.offset, m))))
          && (m == 0 ==> u1 == u0))
    && (!reading ==>
          && f1 == f0[j := f0[j].(blocks := Overlay(f0[j].blocks, u0.offset, u0.kbuf[u0.base..u0.base + m]))]
          && u1 == Advance(u0, m, u0.kbuf))
  }

  lemma MovedNothing(reading: bool, f0: Files, j: nat, u0: UioState)
    requires j in f0 && UioOk(u0)
    ensures Moved(reading, f0, f0, j, u0, u0, 0)
  {
    hide Overlay;
    OverlayNothing(f0[j].blocks, u0.offset);
    assert u0.kbuf[u0.base..u0.base] == [];
  }

  // Transfers in a row are one transfer.
  lemma MovedTwice(reading: bool, f0: Files, f1: Files, f2: Files, j: nat,
                   u0: UioState, u1: UioState, u2: UioState, m: nat, n: nat)
    requires Moved(reading, f0, f1, j, u0, u1, m) && Moved(reading, f1, f2, j, u1, u2, n)
    ensures Moved(reading, f0, f2, j, u0, u2, m + n)
  {
    hide Moved;
    if reading {
      ReadTwice(f0, f1, f2, j, u0, u1, u2, m, n);
    } else {
      WrittenTwice(f0, f1, f2, j, u0, u1, u2, m, n);
    }
  }

  lemma ReadTwice(f0: Files, f1: Files, f2: Files, j: nat, u0: UioState, u1: UioState, u2: UioState, m: nat, n: nat)
    requires Moved(true, f0, f1, j, u0, u1, m) && Moved(true, f1, f2, j, u1, u2, n)
    ensures Moved(true, f0, f2, j, u0, u2, m + n)
  {
    hide Overlay, Splice, Slice;
    if m > 0 && n > 0 {
      var b := f0[j].blocks;
      var d1, d2 := Slice(b, u0.offset, m), Slice(b, u0.offset + m, n);
      SliceConcat(b, u0.offset, m, n);
      SpliceTwice(u0.kbuf, u0.base, d1, d2);
      var k1 := Splice(u0.kbuf, u0.base, d1);
      AdvanceTwice(u0, m, k1, n, Splice(k1, u0.base + m, d2));
      hide Advance;
    }
  }

  lemma AdvanceTwice(u: UioState, m: nat, k1: seq<Byte>, n: nat, k2: seq<Byte>)
    requires m + n <= u.resid && m + n <= u.iovlen
    ensures Advance(Advance(u, m, k1), n, k2) == Advance(u, m + n, k2)
    ensures Advance(u, m, k1).kbuf == k1 && Advance(u, m, k1).base == u.base + m && Advance(u, m, k1).offset == u.offset + m
  {
  }

  lemma WrittenTwice(f0: Files, f1: Files, f2: Files, j: nat, u0: UioState, u1: UioState, u2: UioState, m: nat, n: nat)
    requires Moved(false, f0, f1, j, u0, u1, m) && Moved(false, f1, f2, j, u1, u2, n)
    ensures Moved(false, f0, f2, j, u0, u2, m + n)
  {
    hide Overlay, Splice, Slice;
    var d1, d2 := u0.kbuf[u0.base..u0.base + m], u0.kbuf[u0.base + m..u0.base + m + n];
    assert d1 + d2 == u0.kbuf[u0.base..u0.base + m + n];
    OverlayTwice(f0[j].blocks, u0.offset, d1, d2);
  }

  // The block at byte offset off has a disk block already.
  ghost predicate Mapped(fs: Fs, j: nat, off: nat) {
    off / 512 < 143 && Ptr(fs, j, off / 512) != 0
  }

  // The transfer lies inside one block that is mapped already.
  ghost predicate OneMappedBlock(fs: Fs, j: nat, u: UioState) {
    0 < u.resid < 512 && u.offset % 512 + u.resid <= 512 && Mapped(fs, j, u.offset)
  }

  // ---- One block ----

  // Why a transfer stops at an offset: the block map ends there, or there is a hole and no
  // block is free for it.
  ghost predicate StoppedAt(e: Err, fs: Fs, j: nat, off: nat) {
    && (e == EINVAL ==> off / 512 >= 143)
    && (e == ENOSPC ==> off / 512 < 143 && Ptr(fs, j, off / 512) == 0)
  }

  lemma StoppedMeta(e: Err, fs: Fs, j: nat, off: nat, n: Inode)
    requires StoppedAt(e, fs, j, off) && j in fs.vnodes
    requires n.direct == fs.vnodes[j].inode.direct && n.indirect == fs.vnodes[j].inode.indirect
    ensures StoppedAt(e, PutInode(fs, j, n), j, off)
  {
  }

  // The file block a transfer may allocate up to: the end of the request, or none.
  function Reach(u: UioState, reading: bool): nat {
    if reading then 0 else (u.offset + u.resid + 511) / 512
  }

  // One block of the request lies before its end.
  lemma ReachPast(u: UioState, reading: bool)
    requires u.resid > 0 || u.offset % 512 != 0
    ensures (if reading then 0 else u.offset / 512 + 1) <= Reach(u, reading)
  {
  }

  lemma GrownFrom(o: Owner, o': Owner, j: nat, u: UioState, reading: bool)
    requires Grown(o, o', j, u.offset / 512, if reading then 0 else u.offset / 512 + 1)
    requires u.resid > 0 || u.offset % 512 != 0
    ensures Grown(o, o', j, u.offset / 512, Reach(u, reading))
  {
    hide Grown, Reach;
    ReachPast(u, reading);
    GrownWider(o, o', j, u.offset / 512, if reading then 0 else u.offset / 512 + 1, u.offset / 512, Reach(u, reading));
  }

  lemma ReachSame(u0: UioState, u1: UioState, reading: bool)
    requires u1.offset + u1.resid == u0.offset + u0.resid && u0.offset <= u1.offset
    ensures Reach(u1, reading) == Reach(u0, reading) && u0.offset / 512 <= u1.offset / 512
  {
  }


  // sfs_partialio: len bytes from byte skip of the block at the uio's offset.
  method PartialIo(sfs: SfsFs, j: nat, u: Uio, skip: nat, len: nat) returns (e: Err)
    requires sfs.Valid() && sfs.Settled() && j in sfs.vnodes
    requires UioOk(u.State()) && len <= u.resid && skip == u.offset % 512 && skip + len <= 512
    modifies sfs`disk, sfs`vnodes, sfs`owner, sfs.freemap.v, u
    ensures sfs.Valid() && sfs.Settled() && sfs.Counts() == old(sfs.Counts())
    ensures e == Ok || e == ENOSPC || e == EINVAL
    ensures e == EINVAL <==> old(u.offset) / 512 >= 143
    ensures e == ENOSPC ==> !u.reading && forall c: nat :: c < sfs.nblocks ==> c in sfs.owner
    ensures e == Ok ==> Moved(u.reading, old(sfs.Files()), sfs.Files(), j, old(u.State()), u.State(), len)
    ensures e != Ok ==> sfs.Files() == old(sfs.Files()) && u.State() == old(u.State())
    ensures StoppedAt(e, sfs.View(), j, old(u.offset))
    ensures old(Mapped(sfs.View(), j, u.offset)) ==> e == Ok
    ensures Grown(old(sfs.owner), sfs.owner, j, old(u.offset) / 512, if u.reading then 0 else old(u.offset) / 512 + 1)
  {
    hide Overlay, Splice, Slice, Ptr, SfsFs.Valid, SfsFs.Settled, SfsFs.Files, SfsFs.Counts, BlockSet, Grown;
    ghost var f0, u0 := sfs.Files(), u.State();
    CountedVnode(sfs, j);
    var fileblock := u.offset / 512;
    var diskblock: nat;
    e, diskblock := sfs.Bmap(j, fileblock, !u.reading);
    if e != Ok {
      return;
    }
    CountedVnode(sfs, j);
    var iobuf := FetchBlock(sfs, j, fileblock, diskblock);
    var moved := u.Move(iobuf[skip..], len);
    if !u.reading {
      WriteBack(sfs, j, fileblock, diskblock, iobuf[..skip] + moved);
    }
    PartialMoved(u.reading, f0, sfs.Files(), j, u0, u.State(), fileblock, skip, len, moved);
  }

  lemma CountedVnode(sfs: SfsFs, j: nat)
    requires sfs.Valid()
    ensures j in sfs.Counts() <==> j in sfs.vnodes
  {
    hide Inv, Bitmap.Bits, Bitmap.Valid;
  }

  // The block read by sfs_partialio: a hole reads as zeros.
  method FetchBlock(sfs: SfsFs, j: nat, k: nat, b: nat) returns (iobuf: Block)
    requires sfs.Valid() && j in sfs.vnodes && k < 143 && b == Ptr(sfs.View(), j, k)
    ensures j in sfs.Files() && iobuf == sfs.Files()[j].blocks[k]
  {
    hide Inv, Images, Bitmap.Bits, Bitmap.Valid, Ptr;
    DiskFacts(sfs.View(), sfs.owner);
    FileBlock(sfs.View(), sfs.owner, j, k);
    if b == 0 {
      iobuf := ZeroBlock();
    } else {
      iobuf := sfs.disk[b];
    }
  }

  lemma FileBlock(fs: Fs, owner: Owner, j: nat, k: nat)
    requires Inv(fs, owner) && j in fs.vnodes && k < 143
    ensures j in Images(fs, owner) && Images(fs, owner)[j] == Image(fs, j)
    ensures Images(fs, owner)[j].blocks[k] == if Ptr(fs, j, k) == 0 then ZeroBlock() else Blk(fs, Ptr(fs, j, k))
    ensures Ptr(fs, j, k) != 0 ==> Ptr(fs, j, k) < fs.nblocks
  {
    hide Ptr, ZeroBlock;
    PointerUsed(fs, owner, j, k);
  }

  // Block k of file j became blk, nothing else changed.
  ghost predicate BlockSet(f0: Files, f1: Files, j: nat, k: nat, blk: Block) {
    j in f0 && k < 143 && f1 == f0[j := f0[j].(blocks := f0[j].blocks[k := blk])]
  }

  // sfs_wblock of a data block of file j.
  method WriteBack(sfs: SfsFs, j: nat, k: nat, b: nat, blk: Block)
    requires sfs.Valid() && sfs.Settled() && j in sfs.vnodes && k < 143
    requires 0 != b == Ptr(sfs.View(), j, k) && b < sfs.nblocks
    modifies sfs`disk
    ensures sfs.Valid() && sfs.Settled() && sfs.View() == old(sfs.View()).(disk := sfs.disk)
    ensures BlockSet(old(sfs.Files()), sfs.Files(), j, k, blk) && sfs.Counts() == old(sfs.Counts())
  {
    hide Inv, Images, Bitmap.Bits, Bitmap.Valid, NoFresh, Ptr, Image;
    ghost var fs := sfs.View();
    DiskFacts(fs, sfs.owner);
    FileBlock(fs, sfs.owner, j, k);
    assert Live(sfs.owner, j);
    WriteDataStep(fs, sfs.owner, j, k, blk);
    sfs.disk := sfs.disk[b := blk];
    assert sfs.View() == PutBlock(fs, b, blk);
  }

  lemma PartialMoved(reading: bool, f0: Files, f1: Files, j: nat, u0: UioState, u1: UioState,
                     k: nat, skip: nat, len: nat, moved: seq<Byte>)
    requires j in f0 && UioOk(u0) && len <= u0.resid && k < 143 && skip + len <= 512 && u0.offset == 512 * k + skip
    requires |moved| == 512 - skip
    requires reading ==> f1 == f0
    requires reading ==> u1 == Advance(u0, len, Splice(u0.kbuf, u0.base, f0[j].blocks[k][skip..][..len]))
    requires !reading ==> moved == Splice(f0[j].blocks[k][skip..], 0, u0.kbuf[u0.base..u0.base + len])
    requires !reading ==> u1 == Advance(u0, len, u0.kbuf)
    requires !reading ==> BlockSet(f0, f1, j, k, f0[j].blocks[k][..skip] + moved)
    ensures Moved(reading, f0, f1, j, u0, u1, len)
  {
    hide Overlay;
    var b := f0[j].blocks;
    SliceInBlock(b, k, skip, len);
    assert b[k][skip..][..len] == b[k][skip..skip + len];
    if reading {
      if len == 0 { assert Splice(u0.kbuf, u0.base, []) == u0.kbuf; }
    } else {
      var d := u0.kbuf[u0.base..u0.base + len];
      assert b[k][..skip] + Splice(b[k][skip..], 0, d) == Splice(b[k], skip, d);
      OverlayInBlock(b, k, skip, d);
    }
  }

  // sfs_rwblock: one device block, addressed by the uio's offset.
  method RwBlock(sfs: SfsFs, u: Uio)
    requires u.offset % 512 == 0 && u.offset / 512 < |sfs.disk|
    requires UioOk(u.State()) && u.resid == 512
    modifies sfs`disk, u
    ensures UioOk(u.State())
    ensures u.reading ==> sfs.disk == old(sfs.disk)
    ensures u.reading ==> u.State() == Advance(old(u.State()), 512,
              Splice(old(u.kbuf), old(u.base), old(sfs.disk)[old(u.offset) / 512]))
    ensures !u.reading ==> u.State() == Advance(old(u.State()), 512, old(u.kbuf))
    ensures !u.reading ==> sfs.disk == old(sfs.disk)[old(u.offset) / 512 := old(u.kbuf[u.base..u.base + 512])]
  {
    var b := u.offset / 512;
    var blk := sfs.disk[b];
    assert blk[..512] == blk;
    var out := u.Move(blk, 512);
    if !u.reading {
      assert out == old(u.kbuf[u.base..u.base + 512]);
      sfs.disk := sfs.disk[b := out];
    }
  }

  // sfs_blockio: the whole block at the uio's offset.
  method BlockIo(sfs: SfsFs, j: nat, u: Uio) returns (e: Err)
    requires sfs.Valid() && sfs.Settled() && j in sfs.vnodes
    requires UioOk(u.State()) && u.resid >= 512 && u.offset % 512 == 0
    modifies sfs`disk, sfs`vnodes, sfs`owner, sfs.freemap.v, u
    ensures sfs.Valid() && sfs.Settled() && sfs.Counts() == old(sfs.Counts())
    ensures e == Ok || e == ENOSPC || e == EINVAL
    ensures e == EINVAL <==> old(u.offset) / 512 >= 143
    ensures e == ENOSPC ==> !u.reading && forall c: nat :: c < sfs.nblocks ==> c in sfs.owner
    ensures e == Ok ==> Moved(u.reading, old(sfs.Files()), sfs.Files(), j, old(u.State()), u.State(), 512)
    ensures e != Ok ==> sfs.Files() == old(sfs.Files()) && u.State() == old(u.State())
    ensures StoppedAt(e, sfs.View(), j, old(u.offset))
    ensures Grown(old(sfs.owner), sfs.owner, j, old(u.offset) / 512, if u.reading then 0 else old(u.offset) / 512 + 1)
  {
    hide Inv, Images, Bitmap.Bits, Bitmap.Valid, NoFresh, Refs, Overlay, Splice, Slice, Ptr, Grown;
    ghost var f0, u0 := sfs.Files(), u.State();
    var fileblock := u.offset / 512;
    var diskblock: nat;
    e, diskblock := sfs.Bmap(j, fileblock, !u.reading);
    if e != Ok {
      return;
    }
    assert j in sfs.Counts();
    FileBlock(sfs.View(), sfs.owner, j, fileblock);
    if diskblock == 0 {
      assert u.reading;
      u.MoveZeros(512);
      assert Zeros(512) == ZeroBlock();
      BlockMoved(true, f0, f0, j, u0, u.State(), fileblock);
      return;
    }
    DeviceBlock(sfs, j, u, fileblock, diskblock);
  }

  // The second half of sfs_blockio: point the uio at the device block and back.
  method DeviceMove(sfs: SfsFs, u: Uio, diskblock: nat)
    requires diskblock < |sfs.disk| && UioOk(u.State()) && u.resid >= 512
    modifies sfs`disk, u
    ensures u.reading ==> sfs.disk == old(sfs.disk)
    ensures u.reading ==> u.State() == Advance(old(u.State()), 512, Splice(old(u.kbuf), old(u.base), old(sfs.disk)[diskblock]))
    ensures !u.reading ==> u.State() == Advance(old(u.State()), 512, old(u.kbuf))
    ensures !u.reading ==> sfs.disk == old(sfs.disk)[diskblock := old(u.kbuf[u.base..u.base + 512])]
  {
    hide Splice;
    var saveoff, diskoff := u.offset, diskblock * 512;
    u.offset := diskoff;
    var saveres := u.resid;
    u.resid := 512;
    RwBlock(sfs, u);
    u.offset := (u.offset - diskoff) + saveoff;
    u.resid := (u.resid as int - 512) + saveres;
  }

  method DeviceBlock(sfs: SfsFs, j: nat, u: Uio, fileblock: nat, diskblock: nat)
    requires sfs.Valid() && sfs.Settled() && j in sfs.vnodes
    requires UioOk(u.State()) && u.resid >= 512 && u.offset == 512 * fileblock && fileblock < 143
    requires 0 != diskblock == Ptr(sfs.View(), j, fileblock)
    modifies sfs`disk, u
    ensures sfs.Valid() && sfs.Settled() && sfs.Counts() == old(sfs.Counts())
    ensures Moved(u.reading, old(sfs.Files()), sfs.Files(), j, old(u.State()), u.State(), 512)
  {
    hide Inv, Images, Bitmap.Bits, Bitmap.Valid, NoFresh, Refs, Overlay, Splice, Slice, Ptr, Image, Moved, Advance;
    ghost var f0, u0, fs := sfs.Files(), u.State(), sfs.View();
    DiskFacts(fs, sfs.owner);
    FileBlock(fs, sfs.owner, j, fileblock);
    VnodeLive(fs, sfs.owner, j);
    DeviceMove(sfs, u, diskblock);
    if u.reading {
      assert sfs.View() == fs;
    } else {
      ghost var blk := u0.kbuf[u0.base..u0.base + 512];
      WriteDataStep(fs, sfs.owner, j, fileblock, blk);
      assert sfs.View() == PutBlock(fs, diskblock, blk);
    }
    BlockMoved(u.reading, f0, sfs.Files(), j, u0, u.State(), fileblock);
  }

  lemma VnodeLive(fs: Fs, owner: Owner, j: nat)
    requires Inv(fs, owner) && j in fs.vnodes
    ensures Live(owner, j)
  {
  }

  lemma BlockMoved(reading: bool, f0: Files, f1: Files, j: nat, u0: UioState, u1: UioState, k: nat)
    requires j in f0 && UioOk(u0) && 512 <= u0.resid && k < 143 && u0.offset == 512 * k
    requires reading ==> f1 == f0 && u1 == Advance(u0, 512, Splice(u0.kbuf, u0.base, f0[j].blocks[k]))
    requires !reading ==> u1 == Advance(u0, 512, u0.kbuf)
    requires !reading ==>
      f1 == f0[j := f0[j].(blocks := f0[j].blocks[k := u0.kbuf[u0.base..u0.base + 512]])]
    ensures Moved(reading, f0, f1, j, u0, u1, 512)
  {
    hide Overlay;
    var b := f0[j].blocks;
    SliceInBlock(b, k, 0, 512);
    assert b[k][0..512] == b[k];
    if !reading {
      var d := u0.kbuf[u0.base..u0.base + 512];
      assert Splice(b[k], 0, d) == d;
      OverlayInBlock(b, k, 0, d);
    }
  }

  // ---- Whole transfers ----

  // sfs_io, the run of whole blocks.
  method WholeBlocks(sfs: SfsFs, j: nat, u: Uio) returns (e: Err)
    requires sfs.Valid() && sfs.Settled() && j in sfs.vnodes
    requires UioOk(u.State()) && u.offset % 512 == 0
    modifies sfs`disk, sfs`vnodes, sfs`owner, sfs.freemap.v, u
    ensures sfs.Valid() && sfs.Settled() && sfs.Counts() == old(sfs.Counts())
    ensures e == Ok || e == ENOSPC || e == EINVAL
    ensures u.resid <= old(u.resid) && UioOk(u.State()) && u.offset == old(u.offset) + (old(u.resid) - u.resid)
    ensures e == EINVAL ==> u.resid >= 512 && u.offset >= 73216
    ensures e == ENOSPC ==> !u.reading && forall c: nat :: c < sfs.nblocks ==> c in sfs.owner
    ensures e == Ok ==> u.resid < 512 && u.offset % 512 == 0
    ensures e != Ok ==> u.offset % 512 == 0 && u.resid >= 512
    ensures StoppedAt(e, sfs.View(), j, u.offset)
    ensures old(u.resid) < 512 ==> e == Ok && sfs.View() == old(sfs.View()) && u.State() == old(u.State())
    ensures Moved(u.reading, old(sfs.Files()), sfs.Files(), j, old(u.State()), u.State(), old(u.resid) - u.resid)
    ensures Grown(old(sfs.owner), sfs.owner, j, old(u.offset) / 512, Reach(old(u.State()), u.reading))
  {
    hide Inv, Images, Bitmap.Bits, Bitmap.Valid, NoFresh, Refs, Moved, Grown, Reach, Ptr;
    ghost var f0, u0, o := sfs.Files(), u.State(), sfs.owner;
    GrownNone(o, o, j, u0.offset / 512);
    e := Ok;
    var nblocks := u.resid / 512;
    assert j in sfs.Counts();
    FileLive(sfs.View(), sfs.owner, j);
    MovedNothing(u.reading, f0, j, u0);
    ghost var q := u.offset / 512;
    for i := 0 to nblocks
      invariant u.offset == 512 * (q + i)
      invariant e == Ok && sfs.Valid() && sfs.Settled() && sfs.Counts() == old(sfs.Counts())
      invariant i == 0 ==> sfs.View() == old(sfs.View()) && u.State() == old(u.State())
      invariant u.resid == u0.resid - 512 * i && u.offset == u0.offset + 512 * i && UioOk(u.State())
      invariant Moved(u.reading, f0, sfs.Files(), j, u0, u.State(), 512 * i)
      invariant Grown(o, sfs.owner, j, u0.offset / 512, Reach(u0, u.reading))
    {
      ghost var f1, u1, o1 := sfs.Files(), u.State(), sfs.owner;
      assert j in sfs.Counts();
      Aligned(q + i);
      ReachPast(u1, u.reading);
      ReachSame(u0, u1, u.reading);
      e := BlockIo(sfs, j, u);
      GrownOn(o, o1, sfs.owner, j, u0.offset / 512, Reach(u0, u.reading), u1.offset / 512, if u.reading then 0 else u1.offset / 512 + 1);
      if e != Ok {
        return;
      }
      MovedTwice(u.reading, f0, f1, sfs.Files(), j, u0, u1, u.State(), 512 * i, 512);
      MovedAdvances(u.reading, f1, sfs.Files(), j, u1, u.State(), 512);
    }
    Aligned(q + nblocks);
  }

  lemma Aligned(q: nat)
    ensures (512 * q) % 512 == 0 && (512 * q) / 512 == q
  {
  }

  lemma FileLive(fs: Fs, owner: Owner, j: nat)
    requires Inv(fs, owner) && j in fs.vnodes
    ensures j in Images(fs, owner)
  {
    VnodeLive(fs, owner, j);
  }

  lemma MovedAdvances(reading: bool, f0: Files, f1: Files, j: nat, u0: UioState, u1: UioState, m: nat)
    requires Moved(reading, f0, f1, j, u0, u1, m)
    ensures u1.resid == u0.resid - m && u1.offset == u0.offset + m && UioOk(u1)
    ensures u1.base == u0.base + m
  {
    hide Overlay, Slice;
  }

  lemma NextBoundary(off: nat)
    ensures (off + (512 - off % 512)) % 512 == 0
  {
    var q := off / 512 + 1;
    assert off + (512 - off % 512) == 512 * q;
    Aligned(q);
  }

  // sfs_io, the leading partial block.
  method LeadingPart(sfs: SfsFs, j: nat, u: Uio) returns (e: Err)
    requires sfs.Valid() && sfs.Settled() && j in sfs.vnodes && UioOk(u.State())
    modifies sfs`disk, sfs`vnodes, sfs`owner, sfs.freemap.v, u
    ensures sfs.Valid() && sfs.Settled() && sfs.Counts() == old(sfs.Counts())
    ensures e == Ok || e == ENOSPC || e == EINVAL
    ensures u.resid <= old(u.resid) && UioOk(u.State()) && u.offset == old(u.offset) + (old(u.resid) - u.resid)
    ensures e == EINVAL ==> old(u.offset) > 73216
    ensures e == ENOSPC ==> !u.reading && forall c: nat :: c < sfs.nblocks ==> c in sfs.owner
    ensures e == Ok ==> u.resid == 0 || u.offset % 512 == 0
    ensures e != Ok ==> u.State() == old(u.State())
    ensures StoppedAt(e, sfs.View(), j, u.offset)
    ensures old(u.offset) % 512 == 0 ==> e == Ok && sfs.View() == old(sfs.View()) && u.State() == old(u.State())
    ensures old(u.offset) % 512 + old(u.resid) <= 512 && old(u.offset) % 512 != 0 ==> e == Ok ==> u.resid == 0
    ensures old(Mapped(sfs.View(), j, u.offset)) ==> e == Ok
    ensures Moved(u.reading, old(sfs.Files()), sfs.Files(), j, old(u.State()), u.State(), old(u.resid) - u.resid)
    ensures Grown(old(sfs.owner), sfs.owner, j, old(u.offset) / 512, Reach(old(u.State()), u.reading))
  {
    hide Inv, Images, Bitmap.Bits, Bitmap.Valid, NoFresh, Refs, Moved, Ptr, Mapped, Grown, Reach;
    FileLive(sfs.View(), sfs.owner, j);
    MovedNothing(u.reading, sfs.Files(), j, u.State());
    GrownNone(sfs.owner, sfs.owner, j, u.offset / 512);
    e := Ok;
    var skip := u.offset % 512;
    if skip != 0 {
      ReachPast(u.State(), u.reading);
      NextBoundary(u.offset);
      var len := 512 - skip;
      if len > u.resid {
        len := u.resid;
      }
      e := PartialIo(sfs, j, u, skip, len);
      GrownFrom(old(sfs.owner), sfs.owner, j, old(u.State()), u.reading);
      if e == Ok {
        MovedAdvances(u.reading, old(sfs.Files()), sfs.Files(), j, old(u.State()), u.State(), len);
      }
    }
  }

  // sfs_io between the end-of-file check and the out label: the leading partial
  // block, the whole blocks, the trailing partial block.
  method Transfer(sfs: SfsFs, j: nat, u: Uio) returns (e: Err)
    requires sfs.Valid() && sfs.Settled() && j in sfs.vnodes && UioOk(u.State())
    modifies sfs`disk, sfs`vnodes, sfs`owner, sfs.freemap.v, u
    ensures sfs.Valid() && sfs.Settled() && sfs.Counts() == old(sfs.Counts())
    ensures e == Ok || e == ENOSPC || e == EINVAL
    ensures u.resid <= old(u.resid) && UioOk(u.State())
    ensures e == EINVAL ==> old(u.offset) + old(u.resid) > 73216
    ensures e == ENOSPC ==> !u.reading && forall c: nat :: c < sfs.nblocks ==> c in sfs.owner
    ensures e != Ok ==> u.resid == old(u.resid) || (u.resid > 0 && u.offset % 512 == 0)
    ensures StoppedAt(e, sfs.View(), j, u.offset)
    ensures old(OneMappedBlock(sfs.View(), j, u.State())) ==> e == Ok
    ensures e == Ok ==> u.resid == 0
    ensures Moved(u.reading, old(sfs.Files()), sfs.Files(), j, old(u.State()), u.State(), old(u.resid) - u.resid)
    ensures Grown(old(sfs.owner), sfs.owner, j, old(u.offset) / 512, Reach(old(u.State()), u.reading))
  {
    hide Inv, Images, Bitmap.Bits, Bitmap.Valid, NoFresh, Refs, Moved, Ptr, Mapped, Grown, Reach;
    ghost var f0, u0, o := sfs.Files(), u.State(), sfs.owner;
    e := LeadingPart(sfs, j, u);
    if e != Ok || u.resid == 0 {
      return;
    }
    ghost var f1, u1, o1 := sfs.Files(), u.State(), sfs.owner;
    ReachSame(u0, u1, u.reading);
    assert j in sfs.Counts();
    e := AlignedPart(sfs, j, u);
    GrownOn(o, o1, sfs.owner, j, u0.offset / 512, Reach(u0, u.reading), u1.offset / 512, Reach(u1, u.reading));
    MovedTwice(u.reading, f0, f1, sfs.Files(), j, u0, u1, u.State(), u0.resid - u1.resid, u1.resid - u.resid);
  }

  // sfs_io once block-aligned: whole blocks, then the trailing partial block.
  method AlignedPart(sfs: SfsFs, j: nat, u: Uio) returns (e: Err)
    requires sfs.Valid() && sfs.Settled() && j in sfs.vnodes && UioOk(u.State()) && u.offset % 512 == 0
    modifies sfs`disk, sfs`vnodes, sfs`owner, sfs.freemap.v, u
    ensures sfs.Valid() && sfs.Settled() && sfs.Counts() == old(sfs.Counts())
    ensures e == Ok || e == ENOSPC || e == EINVAL
    ensures u.resid <= old(u.resid) && UioOk(u.State())
    ensures e == EINVAL ==> old(u.offset) + old(u.resid) > 73216
    ensures e == ENOSPC ==> !u.reading && forall c: nat :: c < sfs.nblocks ==> c in sfs.owner
    ensures e != Ok ==> u.resid > 0 && u.offset % 512 == 0
    ensures StoppedAt(e, sfs.View(), j, u.offset)
    ensures old(u.resid) < 512 && old(Mapped(sfs.View(), j, u.offset)) ==> e == Ok
    ensures e == Ok ==> u.resid == 0
    ensures Moved(u.reading, old(sfs.Files()), sfs.Files(), j, old(u.State()), u.State(), old(u.resid) - u.resid)
    ensures Grown(old(sfs.owner), sfs.owner, j, old(u.offset) / 512, Reach(old(u.State()), u.reading))
  {
    hide Inv, Images, Bitmap.Bits, Bitmap.Valid, NoFresh, Refs, Moved, Ptr, Mapped, Grown, Reach;
    ghost var f0, u0, o := sfs.Files(), u.State(), sfs.owner;
    e := WholeBlocks(sfs, j, u);
    if e != Ok {
      return;
    }
    ghost var f1, u1, o1 := sfs.Files(), u.State(), sfs.owner;
    ReachSame(u0, u1, u.reading);
    assert j in sfs.Counts();
    e := TrailingPart(sfs, j, u);
    GrownOn(o, o1, sfs.owner, j, u0.offset / 512, Reach(u0, u.reading), u1.offset / 512, Reach(u1, u.reading));
    MovedTwice(u.reading, f0, f1, sfs.Files(), j, u0, u1, u.State(), u0.resid - u1.resid, u1.resid - u.resid);
  }

  // sfs_io, the trailing partial block.
  method TrailingPart(sfs: SfsFs, j: nat, u: Uio) returns (e: Err)
    requires sfs.Valid() && sfs.Settled() && j in sfs.vnodes && UioOk(u.State())
    requires u.resid < 512 && u.offset % 512 == 0
    modifies sfs`disk, sfs`vnodes, sfs`owner, sfs.freemap.v, u
    ensures sfs.Valid() && sfs.Settled() && sfs.Counts() == old(sfs.Counts())
    ensures e == Ok || e == ENOSPC || e == EINVAL
    ensures u.resid <= old(u.resid) && UioOk(u.State())
    ensures e == EINVAL ==> u.resid > 0 && u.offset >= 73216
    ensures e == ENOSPC ==> !u.reading && forall c: nat :: c < sfs.nblocks ==> c in sfs.owner
    ensures e == Ok ==> u.resid == 0
    ensures e != Ok ==> u.State() == old(u.State()) && u.resid > 0
    ensures StoppedAt(e, sfs.View(), j, u.offset)
    ensures old(Mapped(sfs.View(), j, u.offset)) ==> e == Ok
    ensures Moved(u.reading, old(sfs.Files()), sfs.Files(), j, old(u.State()), u.State(), old(u.resid) - u.resid)
    ensures Grown(old(sfs.owner), sfs.owner, j, old(u.offset) / 512, Reach(old(u.State()), u.reading))
  {
    hide Inv, Images, Bitmap.Bits, Bitmap.Valid, NoFresh, Refs, Moved, Ptr, Mapped, Grown, Reach;
    FileLive(sfs.View(), sfs.owner, j);
    MovedNothing(u.reading, sfs.Files(), j, u.State());
    GrownNone(sfs.owner, sfs.owner, j, u.offset / 512);
    e := Ok;
    if u.resid > 0 {
      ReachPast(u.State(), u.reading);
      e := PartialIo(sfs, j, u, 0, u.resid);
      GrownFrom(old(sfs.owner), sfs.owner, j, old(u.State()), u.reading);
      if e == Ok {
        MovedAdvances(u.reading, old(sfs.Files()), sfs.Files(), j, old(u.State()), u.State(), old(u.resid));
      }
    }
  }

  // Updating fields of a loaded inode other than its block map.
  method SetInode(sfs: SfsFs, j: nat, n: Inode)
    requires sfs.Valid() && j in sfs.vnodes
    requires n.direct == sfs.vnodes[j].inode.direct && n.indirect == sfs.vnodes[j].inode.indirect
    modifies sfs`vnodes
    ensures sfs.Valid() && sfs.Counts() == old(sfs.Counts())
    ensures sfs.View() == PutInode(old(sfs.View()), j, n)
    ensures j in old(sfs.Files())
    ensures sfs.Files() == old(sfs.Files())[j := Img(n.kind, n.links, n.size, old(sfs.Files())[j].blocks)]
  {
    hide Inv, Images, Bitmap.Bits, Bitmap.Valid, Refs;
    ghost var fs := sfs.View();
    ImageOf(fs, sfs.owner, j);
    MetaStep(fs, sfs.owner, j, n);
    RefsPutInode(fs, j, n);
    sfs.vnodes := sfs.vnodes[j := sfs.vnodes[j].(inode := n, dirty := true)];
    assert sfs.View() == PutInode(fs, j, n);
  }

  lemma ImageOf(fs: Fs, owner: Owner, j: nat)
    requires Inv(fs, owner) && j in fs.vnodes
    ensures j in Images(fs, owner) && Images(fs, owner)[j] == Image(fs, j)
    ensures var n := fs.vnodes[j].inode; var i := Image(fs, j);
            i.kind == n.kind && i.links == n.links && i.size == n.size
  {
    VnodeLive(fs, owner, j);
  }

  // How many bytes a read can deliver.
  function Available(img: Img, u: UioState): (n: nat)
    ensures n <= u.resid
  {
    if u.offset >= img.size then 0 else Min(u.resid, img.size - u.offset)
  }

  // A read delivered m bytes of the file, in order, into the buffer.
  ghost predicate Delivered(img: Img, u0: UioState, u1: UioState, m: nat) {
    && UioOk(u0) && m <= Available(img, u0)
    && (m > 0 ==> u1 == Advance(u0, m, Splice(u0.kbuf, u0.base, Contents(img)[u0.offset..u0.offset + m])))
    && (m == 0 ==> u1 == u0)
  }

  lemma MovedDelivers(f0: Files, j: nat, u0: UioState, u1: UioState, extra: nat, m: nat)
    requires j in f0 && UioOk(u0) && extra <= u0.resid
    requires Available(f0[j], u0) == u0.resid - extra
    requires Moved(true, f0, f0, j, u0.(resid := u0.resid - extra), u1, m)
    ensures Delivered(f0[j], u0, u1.(resid := u1.resid + extra), m)
  {
    hide Splice;
    if m > 0 {
      assert Slice(f0[j].blocks, u0.offset, m) == Contents(f0[j])[u0.offset..u0.offset + m];
    }
  }

  lemma DeliversNothing(img: Img, u: UioState)
    requires UioOk(u)
    ensures Delivered(img, u, u, 0)
  {
  }

  // The size a loaded inode carries is the file's.
  method SizeOf(sfs: SfsFs, j: nat) returns (n: Word)
    requires sfs.Valid() && j in sfs.vnodes
    ensures j in sfs.Files() && n == sfs.Files()[j].size
  {
    hide Inv, Images, Bitmap.Bits, Bitmap.Valid;
    ImageOf(sfs.View(), sfs.owner, j);
    n := sfs.vnodes[j].inode.size;
  }

  // sfs_read: the bytes from the offset to the end of the file or the end of the
  // request, whichever is first; the file does not change.
  method Read(sfs: SfsFs, j: nat, u: Uio) returns (e: Err)
    requires sfs.Valid() && sfs.Settled() && j in sfs.vnodes
    requires UioOk(u.State()) && u.reading
    modifies sfs`disk, sfs`vnodes, sfs`owner, sfs.freemap.v, u
    ensures sfs.Valid() && sfs.Settled() && sfs.Counts() == old(sfs.Counts())
    ensures sfs.Files() == old(sfs.Files()) && j in sfs.Files()
    ensures u.resid <= old(u.resid)
    ensures Delivered(sfs.Files()[j], old(u.State()), u.State(), old(u.resid) - u.resid)
    ensures e == Ok ==> old(u.resid) - u.resid == Available(sfs.Files()[j], old(u.State()))
    ensures e != Ok ==> e == EINVAL && old(u.offset) + Available(sfs.Files()[j], old(u.State())) > 73216
    ensures e != Ok ==> old(u.offset) < sfs.Files()[j].size && u.offset >= 73216
    ensures sfs.owner == old(sfs.owner)
  {
    hide SfsFs.Valid, SfsFs.Files, SfsFs.Counts, SfsFs.Settled, Ptr, Moved, Delivered, OneMappedBlock, Grown;
    ghost var f0, u0 := sfs.Files(), u.State();
    var size := SizeOf(sfs, j);
    var extra := 0;
    var endpos := u.offset + u.resid;
    if u.offset >= size {
      assert Delivered(f0[j], u0, u0, 0) by { DeliversNothing(f0[j], u0); }
      return Ok;
    }
    if endpos > size {
      extra := endpos - size;
      assert u.resid > extra;
      u.resid := u.resid - extra;
    }
    ghost var u1 := u.State();
    e := Transfer(sfs, j, u);
    GrownNone(old(sfs.owner), sfs.owner, j, u1.offset / 512);
    MovedReads(f0, sfs.Files(), j, u1, u.State(), u1.resid - u.resid);
    MovedDelivers(f0, j, u0, u.State(), extra, u1.resid - u.resid);
    u.resid := u.resid + extra;
  }

  lemma MovedReads(f0: Files, f1: Files, j: nat, u0: UioState, u1: UioState, m: nat)
    requires Moved(true, f0, f1, j, u0, u1, m)
    ensures f1 == f0
  {
  }

  // What a write of the buffer's next m bytes leaves of the file.
  ghost predicate Wrote(f0: Files, f1: Files, j: nat, u0: UioState, u1: UioState, m: nat) {
    && j in f0 && UioOk(u0) && m <= u0.resid && u0.offset + m <= OFF_MAX
    && u1 == Advance(u0, m, u0.kbuf)
    && f1 == f0[j := WriteImg(f0[j], u0.offset, u0.kbuf[u0.base..u0.base + m])]
  }

  // sfs_write: whatever the outcome, the bytes that were transferred are laid over
  // the file and its size covers them; nothing else of it changes, nor any other
  // file. It stops early only when no block is free or the block map ends.
  method Write(sfs: SfsFs, j: nat, u: Uio) returns (e: Err)
    requires sfs.Valid() && sfs.Settled() && j in sfs.vnodes
    requires UioOk(u.State()) && !u.reading && u.offset + u.resid <= OFF_MAX
    modifies sfs`disk, sfs`vnodes, sfs`owner, sfs.freemap.v, u
    ensures sfs.Valid() && sfs.Settled() && sfs.Counts() == old(sfs.Counts())
    ensures u.resid <= old(u.resid)
    ensures Wrote(old(sfs.Files()), sfs.Files(), j, old(u.State()), u.State(), old(u.resid) - u.resid)
    ensures old(u.resid) > u.resid ==> u.offset <= 73216
    ensures e == Ok ==> u.resid == 0
    ensures e != Ok ==> e == ENOSPC || e == EINVAL
    ensures e == ENOSPC ==> forall c: nat :: c < sfs.nblocks ==> c in sfs.owner
    ensures e == EINVAL ==> old(u.offset) + old(u.resid) > 73216
    ensures e != Ok ==> u.resid == old(u.resid) || (u.resid > 0 && u.offset % 512 == 0)
    ensures StoppedAt(e, sfs.View(), j, u.offset)
    ensures old(OneMappedBlock(sfs.View(), j, u.State())) ==> e == Ok
    ensures Grown(old(sfs.owner), sfs.owner, j, old(u.offset) / 512, Reach(old(u.State()), false))
  {
    hide Inv, Images, Bitmap.Bits, Bitmap.Valid, Refs, NoFresh, Moved, Wrote, OneMappedBlock, Ptr, Grown, StoppedAt;
    ghost var f0, u0 := sfs.Files(), u.State();
    ImageOf(sfs.View(), sfs.owner, j);
    e := Transfer(sfs, j, u);
    ghost var m := u0.resid - u.resid;
    ghost var f1 := sfs.Files();
    MovedAdvances(false, f0, f1, j, u0, u.State(), m);
    assert j in sfs.Counts();
    ImageOf(sfs.View(), sfs.owner, j);
    var n := sfs.vnodes[j].inode;
    if u.offset > n.size {
      StoppedMeta(e, sfs.View(), j, u.offset, n.(size := u.offset));
      SetInode(sfs, j, n.(size := u.offset));
    }
    WroteDone(f0, f1, sfs.Files(), j, u0, u.State(), m);
  }

  lemma WroteDone(f0: Files, f1: Files, f2: Files, j: nat, u0: UioState, u1: UioState, m: nat)
    requires Moved(false, f0, f1, j, u0, u1, m) && u0.offset + m <= OFF_MAX
    requires f2 == if u1.offset > f1[j].size then f1[j := Img(f1[j].kind, f1[j].links, u1.offset, f1[j].blocks)] else f1
    ensures Wrote(f0, f2, j, u0, u1, m)
    ensures m > 0 ==> u1.offset <= 73216
  {
    hide Overlay;
    var d := u0.kbuf[u0.base..u0.base + m];
    assert f1[j] == f0[j].(blocks := Overlay(f0[j].blocks, u0.offset, d));
  }
}
