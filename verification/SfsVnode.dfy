// Whole-vnode operations: truncation, loading, reference counting, reclaiming
// and creating objects.
module SfsVnodeOps {
  import opened SfsLayout
  import opened SfsBlocks
  import opened SfsSteps
  import opened SfsTruncate
  import opened SfsBytes
  import opened SfsCore
  import opened SfsIo
  import opened Bitmaps

  // ---- sfs_truncate ----

  // The blocks freed once file blocks below m have been visited.
  function FreedBelow(fs: Fs, j: nat, bl: nat, m: nat): (s: set<nat>)
    requires m <= 143
  {
    set k: nat | k < m && !Kept(k, bl) && Ptr(fs, j, k) != 0 :: Ptr(fs, j, k)
  }

  lemma FreedNext(fs: Fs, j: nat, bl: nat, m: nat)
    requires m < 143
    ensures FreedBelow(fs, j, bl, m + 1) ==
            if !Kept(m, bl) && Ptr(fs, j, m) != 0 then FreedBelow(fs, j, bl, m) + {Ptr(fs, j, m) as nat}
            else FreedBelow(fs, j, bl, m)
  {
    hide Ptr, Kept;
  }

  // No block is freed twice: the next one to go is still marked.
  lemma StillMarked(fs: Fs, owner: Owner, j: nat, bl: nat, m: nat)
    requires Inv(fs, owner) && j in fs.vnodes && m < 143 && Ptr(fs, j, m) != 0
    ensures Ptr(fs, j, m) in owner.Keys - FreedBelow(fs, j, bl, m) && Ptr(fs, j, m) < fs.nblocks
  {
    PointerUsed(fs, owner, j, m);
    hide Ptr, Kept, Inv;
    forall k: nat | k < m && Ptr(fs, j, k) != 0 ensures Ptr(fs, j, k) != Ptr(fs, j, m) {
      PointerUsed(fs, owner, j, k);
    }
  }

  lemma IndirectStillMarked(fs: Fs, owner: Owner, j: nat, bl: nat, m: nat)
    requires Inv(fs, owner) && j in fs.vnodes && m <= 143 && Ino(fs, j).indirect != 0
    ensures Ino(fs, j).indirect in owner.Keys - FreedBelow(fs, j, bl, m)
  {
    IndirectUsed(fs, owner, j);
    hide Ptr, Kept, Inv, Ino;
    forall k: nat | k < m && Ptr(fs, j, k) != 0 ensures Ptr(fs, j, k) != Ino(fs, j).indirect {
      PointerUsed(fs, owner, j, k);
    }
  }

  lemma FreedIsReleased(fs: Fs, j: nat, bl: nat)
    ensures FreedBelow(fs, j, bl, 143) + (if DropsIndirect(fs, j, bl) then {Ino(fs, j).indirect as nat} else {}) ==
            Released(fs, j, bl)
    ensures !Examines(Ino(fs, j), bl) ==> FreedBelow(fs, j, bl, 15) == FreedBelow(fs, j, bl, 143)
  {
    hide DropsIndirect, Words;
    if !Examines(Ino(fs, j), bl) {
      forall k: nat | 15 <= k < 143 ensures Kept(k, bl) || Ptr(fs, j, k) == 0 {}
      hide Ptr, Kept;
      assert FreedBelow(fs, j, bl, 15) == FreedBelow(fs, j, bl, 143);
    }
  }

  // d with its first m entries cut.
  function CutBelow(d: Direct, bl: nat, m: nat): (r: Direct)
    ensures forall k :: 0 <= k < 15 ==> r[k] == if k < m && k >= bl then 0 else d[k]
  {
    seq(15, k requires 0 <= k < 15 => if k < m && k >= bl then 0 else d[k])
  }

  lemma CutBelowEnds(d: Direct, bl: nat)
    ensures CutBelow(d, bl, 0) == d && CutBelow(d, bl, 15) == CutDirect(d, bl)
  {
  }

  lemma CutBelowNext(d: Direct, bl: nat, m: nat)
    requires m < 15
    ensures CutBelow(d, bl, m + 1) == if m >= bl && d[m] != 0 then CutBelow(d, bl, m)[m := 0] else CutBelow(d, bl, m)
    ensures CutBelow(d, bl, m)[m] == d[m]
  {
  }

  // The first loop of sfs_truncate: the direct blocks.
  method CutDirectBlocks(sfs: SfsFs, j: nat, bl: nat)
    requires sfs.Valid() && j in sfs.vnodes
    modifies sfs`vnodes, sfs.freemap.v
    ensures sfs.freemap.Valid()
    ensures sfs.freemap.Bits() == sfs.owner.Keys - FreedBelow(old(sfs.View()), j, bl, 15)
    ensures j in sfs.vnodes && sfs.vnodes == old(sfs.vnodes)[j := sfs.vnodes[j]]
    ensures sfs.vnodes[j].refcount == old(sfs.vnodes)[j].refcount
    ensures var n := old(sfs.vnodes)[j].inode; sfs.vnodes[j].inode == n.(direct := CutDirect(n.direct, bl))
  {
    hide Inv, Bitmap.Bits, Bitmap.Valid, FreedBelow, CutDirect, CutBelow;
    ghost var fs := sfs.View();
    var n := sfs.vnodes[j].inode;
    DiskFacts(fs, sfs.owner);
    CutBelowEnds(n.direct, bl);
    FreedNone(fs, j, bl);
    for i := 0 to 15
      invariant sfs.freemap.Valid()
      invariant sfs.freemap.Bits() == sfs.owner.Keys - FreedBelow(fs, j, bl, i)
      invariant j in sfs.vnodes && sfs.vnodes == fs.vnodes[j := sfs.vnodes[j]]
      invariant sfs.vnodes[j].refcount == fs.vnodes[j].refcount
      invariant sfs.vnodes[j].inode == n.(direct := CutBelow(n.direct, bl, i))
    {
      var v := sfs.vnodes[j];
      var block := v.inode.direct[i];
      CutBelowNext(n.direct, bl, i);
      FreedNext(fs, j, bl, i);
      assert block == Ptr(fs, j, i);
      if i >= bl && block != 0 {
        StillMarked(fs, sfs.owner, j, bl, i);
        sfs.freemap.Unmark(block);
        sfs.vnodes := sfs.vnodes[j := v.(inode := v.inode.(direct := v.inode.direct[i := 0]), dirty := true)];
      }
    }
  }

  lemma FreedNone(fs: Fs, j: nat, bl: nat)
    ensures FreedBelow(fs, j, bl, 0) == {}
  {
  }

  // w with its first m entries cut.
  function EntriesCut(w: WordBlock, bl: nat, m: nat): (r: WordBlock)
    ensures forall i :: 0 <= i < 128 ==> r[i] == if i < m && bl < 15 + i then 0 else w[i]
  {
    seq(128, i requires 0 <= i < 128 => if i < m && bl < 15 + i then 0 else w[i])
  }

  lemma EntriesCutEnds(w: WordBlock, bl: nat)
    ensures EntriesCut(w, bl, 0) == w && EntriesCut(w, bl, 128) == CutWords(w, bl)
  {
  }

  lemma EntriesCutNext(w: WordBlock, bl: nat, m: nat)
    requires m < 128
    ensures EntriesCut(w, bl, m + 1) ==
            if bl < 15 + m && w[m] != 0 then EntriesCut(w, bl, m)[m := 0] else EntriesCut(w, bl, m)
    ensures EntriesCut(w, bl, m)[m] == w[m]
    ensures EntriesCut(w, bl, m) != w ==> EntriesCut(w, bl, m + 1) != w
  {
    if EntriesCut(w, bl, m) != w {
      var i :| 0 <= i < 128 && EntriesCut(w, bl, m)[i] != w[i];
      assert EntriesCut(w, bl, m + 1)[i] != w[i];
    }
  }

  lemma EntryPtr(fs: Fs, j: nat, k: nat)
    requires 15 <= k < 143 && Ino(fs, j).indirect != 0
    ensures Ptr(fs, j, k) == Words(Blk(fs, Ino(fs, j).indirect))[k - 15]
  {
  }

  ghost predicate NonzeroBelow(w: WordBlock, i: nat) {
    exists k :: 0 <= k < i && k < 128 && w[k] != 0
  }

  lemma NonzeroNext(w: WordBlock, w': WordBlock, i: nat)
    requires i < 128 && forall k :: 0 <= k < i ==> w'[k] == w[k]
    ensures NonzeroBelow(w', i + 1) <==> NonzeroBelow(w, i) || w'[i] != 0
  {
    assert NonzeroBelow(w', i + 1) ==> NonzeroBelow(w, i) || w'[i] != 0;
    if NonzeroBelow(w, i) {
      var k :| 0 <= k < i && k < 128 && w[k] != 0;
      assert w'[k] != 0;
    }
  }

  lemma NonzeroEnds(w: WordBlock)
    ensures !NonzeroBelow(w, 0)
    ensures forall v: WordBlock :: NonzeroBelow(v, 128) <==> !AllZero(v)
  {
  }


  // The loop of sfs_truncate over the indirect block, held in a buffer.
  method CutEntries(sfs: SfsFs, j: nat, bl: nat, ghost fs: Fs, buf: WordBlock)
    returns (idbuf: WordBlock, hasnonzero: bool, iddirty: bool)
    requires Inv(fs, sfs.owner) && j in fs.vnodes && fs.nblocks == sfs.nblocks && sfs.freemap.nbits == MapSize(sfs.nblocks)
    requires sfs.freemap.Valid() && sfs.freemap.Bits() == sfs.owner.Keys - FreedBelow(fs, j, bl, 15)
    requires Ino(fs, j).indirect != 0 && buf == Words(Blk(fs, Ino(fs, j).indirect))
    modifies sfs.freemap.v
    ensures sfs.freemap.Valid() && sfs.freemap.Bits() == sfs.owner.Keys - FreedBelow(fs, j, bl, 143)
    ensures idbuf == CutWords(buf, bl)
    ensures hasnonzero <==> !AllZero(idbuf)
    ensures iddirty <==> idbuf != buf
  {
    hide Inv, Bitmap.Bits, Bitmap.Valid, FreedBelow, CutWords, EntriesCut, Words, Ino, Ptr, MapSize, NonzeroBelow, AllZero;
    DiskFacts(fs, sfs.owner);
    EntriesCutEnds(buf, bl);
    NonzeroEnds(buf);
    idbuf, hasnonzero, iddirty := buf, false, false;
    for i := 0 to 128
      invariant sfs.freemap.Valid() && sfs.freemap.Bits() == sfs.owner.Keys - FreedBelow(fs, j, bl, 15 + i)
      invariant idbuf == EntriesCut(buf, bl, i)
      invariant hasnonzero <==> NonzeroBelow(idbuf, i)
      invariant iddirty <==> idbuf != buf
    {
      ghost var before := idbuf;
      EntriesCutNext(buf, bl, i);
      FreedNext(fs, j, bl, 15 + i);
      EntryPtr(fs, j, 15 + i);
      if bl < 15 + i && idbuf[i] != 0 {
        StillMarked(fs, sfs.owner, j, bl, 15 + i);
        sfs.freemap.Unmark(idbuf[i]);
        idbuf := idbuf[i := 0];
        iddirty := true;
      }
      NonzeroNext(before, idbuf, i);
      if idbuf[i] != 0 {
        hasnonzero := true;
      }
    }
  }

  // What the freemap, the disk and the inode look like once both loops are done.
  ghost predicate BothCut(sfs: SfsFs, fs: Fs, j: nat, bl: nat)
    reads sfs, sfs.freemap.v
  {
    && sfs.freemap.Valid() && sfs.freemap.Bits() == sfs.owner.Keys - Released(fs, j, bl)
    && sfs.nblocks == fs.nblocks && sfs.disk == CutDisk(fs, j, bl).disk
    && j in fs.vnodes && j in sfs.vnodes && sfs.vnodes == fs.vnodes[j := sfs.vnodes[j]]
    && sfs.vnodes[j].refcount == fs.vnodes[j].refcount
    && sfs.vnodes[j].inode == CutPointers(fs, j, bl)
  }

  function CutPointers(fs: Fs, j: nat, bl: nat): Inode {
    var n := Ino(fs, j);
    n.(direct := CutDirect(n.direct, bl), indirect := if DropsIndirect(fs, j, bl) then 0 else n.indirect)
  }

  // The second half of sfs_truncate: the indirect block.
  method CutIndirectBlock(sfs: SfsFs, j: nat, bl: nat, ghost fs: Fs)
    requires Inv(fs, sfs.owner) && j in fs.vnodes && fs.nblocks == sfs.nblocks && sfs.freemap.nbits == MapSize(sfs.nblocks)
    requires sfs.freemap.Valid() && sfs.freemap.Bits() == sfs.owner.Keys - FreedBelow(fs, j, bl, 15)
    requires sfs.disk == fs.disk && j in sfs.vnodes && sfs.vnodes == fs.vnodes[j := sfs.vnodes[j]]
    requires sfs.vnodes[j].refcount == fs.vnodes[j].refcount
    requires sfs.vnodes[j].inode == Ino(fs, j).(direct := CutDirect(Ino(fs, j).direct, bl))
    modifies sfs`disk, sfs`vnodes, sfs.freemap.v
    ensures BothCut(sfs, fs, j, bl)
  {
    hide Inv, Bitmap.Bits, Bitmap.Valid, FreedBelow, CutWords, Words, Bytes, Ino, Ptr, MapSize, Released, AllZero, CutDirect;
    DiskFacts(fs, sfs.owner);
    FreedIsReleased(fs, j, bl);
    var idblock: nat := sfs.vnodes[j].inode.indirect;
    if bl < 142 && idblock != 0 {
      IndirectUsed(fs, sfs.owner, j);
      var buf := Words(sfs.disk[idblock]);
      var idbuf, hasnonzero, iddirty := CutEntries(sfs, j, bl, fs, buf);
      if !hasnonzero {
        IndirectStillMarked(fs, sfs.owner, j, bl, 143);
        sfs.freemap.Unmark(idblock);
        var v := sfs.vnodes[j];
        sfs.vnodes := sfs.vnodes[j := v.(inode := v.inode.(indirect := 0), dirty := true)];
      } else if iddirty {
        sfs.disk := sfs.disk[idblock := Bytes(idbuf)];
      }
    }
  }

  lemma NoFreshLess(owner: Owner, gone: set<nat>)
    requires NoFresh(owner)
    ensures NoFresh(owner - gone)
  {
    var o := owner - gone;
    forall c: nat ensures !Has(o, c, Fresh) {
      assert !Has(owner, c, Fresh);
    }
  }

  lemma RefsTruncate(fs: Fs, j: nat, len: Word)
    requires j in fs.vnodes
    ensures Refs(Truncate(fs, j, len)) == Refs(fs)
    ensures Truncate(fs, j, len) ==
            CutDisk(fs, j, BlockLen(len)).(vnodes := fs.vnodes[
              j := Vnode(CutPointers(fs, j, BlockLen(len)).(size := len), true, fs.vnodes[j].refcount)])
    ensures CutDisk(fs, j, BlockLen(len)).nblocks == fs.nblocks
  {
    hide CutDirect, DropsIndirect, Words, BlockLen, CutWords, AllZero, Examines;
  }

  // sfs_truncate, to any length: the blocks past the new length are given back and
  // only those, and the file keeps what TruncateImg says; no other file changes.
  method TruncateFile(sfs: SfsFs, j: nat, len: nat)
    requires sfs.Valid() && sfs.Settled() && j in sfs.vnodes && len <= OFF_MAX
    modifies sfs`disk, sfs`vnodes, sfs`owner, sfs.freemap.v
    ensures sfs.Valid() && sfs.Settled() && sfs.Counts() == old(sfs.Counts())
    ensures j in old(sfs.Files())
    ensures sfs.Files() == old(sfs.Files())[j := TruncateImg(old(sfs.Files())[j], len)]
    ensures sfs.owner == old(sfs.owner) - Released(old(sfs.View()), j, BlockLen(len))
    ensures PointersCut(old(sfs.View()), old(sfs.owner), sfs.View(), j, BlockLen(len))
  {
    hide Inv, Images, Bitmap.Bits, Bitmap.Valid, FreedBelow, Ino, Ptr, MapSize, Released, NoFresh, Refs, PointersCut,
      Truncate, TruncateImg, BlockLen, CutDisk, CutPointers, CutDirect, DropsIndirect;
    ghost var fs, o := sfs.View(), sfs.owner;
    ghost var gone := Released(fs, j, BlockLen(len));
    ImageOf(fs, o, j);
    TruncateStep(fs, o, j, len);
    RefsTruncate(fs, j, len);
    NoFreshLess(o, gone);
    CutDirectBlocks(sfs, j, BlockLen(len));
    assert sfs.vnodes[j].inode == Ino(fs, j).(direct := CutDirect(Ino(fs, j).direct, BlockLen(len))) by { InoLoaded(fs, j); }
    CutIndirectBlock(sfs, j, BlockLen(len), fs);
    // Set the file size, mark the inode dirty.
    var v := sfs.vnodes[j];
    sfs.vnodes := sfs.vnodes[j := v.(inode := v.inode.(size := len), dirty := true)];
    sfs.owner := sfs.owner - gone;
    assert sfs.View() == Truncate(fs, j, len);
  }

  lemma InoLoaded(fs: Fs, j: nat)
    requires j in fs.vnodes
    ensures Ino(fs, j) == fs.vnodes[j].inode
  {
  }

  // What truncation leaves mapped past the end of the file: at most one block, and
  // only where the comparison is strict. To length 0 it leaves nothing at all.
  lemma MappedPastEnd(fs: Fs, owner: Owner, fs': Fs, j: nat, len: Word, k: nat)
    requires k < 143 && PointersCut(fs, owner, fs', j, BlockLen(len))
    ensures Ptr(fs', j, k) != 0 && k >= BlockLen(len) ==> k == BlockLen(len) && k >= 15
    ensures len == 0 ==> Ptr(fs', j, k) == 0
    ensures len == 0 ==> Ino(fs', j).indirect == 0
  {
    hide Ino, Ptr, DropsIndirect;
    DropsAll(fs, j);
  }

  // The block right past the new end, when it is one the strict comparison keeps and it
  // was mapped.
  ghost predicate KeepsExtra(fs: Fs, j: nat, len: Word) {
    15 <= BlockLen(len) < 143 && Ptr(fs, j, BlockLen(len)) != 0
  }

  // Truncation unmaps everything past the new end exactly unless that block is there.
  lemma CleanExactly(fs: Fs, owner: Owner, fs': Fs, j: nat, len: Word)
    requires PointersCut(fs, owner, fs', j, BlockLen(len))
    ensures (forall k :: BlockLen(len) <= k < 143 ==> Ptr(fs', j, k) == 0) <==> !KeepsExtra(fs, j, len)
  {
    hide Ino, Ptr, DropsIndirect;
    var bl := BlockLen(len);
    if 15 <= bl < 143 { assert Ptr(fs', j, bl) == Ptr(fs, j, bl); }
    forall k | bl <= k < 143 && !KeepsExtra(fs, j, len) ensures Ptr(fs', j, k) == 0 {
      assert Ptr(fs', j, k) == if Kept(k, bl) then Ptr(fs, j, k) else 0;
    }
  }

  lemma DropsAll(fs: Fs, j: nat)
    ensures Ino(fs, j).indirect != 0 ==> DropsIndirect(fs, j, 0)
  {
    hide Ino, Words;
  }

  // ---- Loading and creating vnodes ----

  // The search of sfs_loadvnode: every inode in memory is in an allocated block.
  method CheckTable(sfs: SfsFs)
    requires sfs.Valid()
    ensures forall i :: i in sfs.vnodes ==> i in sfs.owner && i < sfs.nblocks
  {
    hide Inv, Bitmap.Bits, Bitmap.Valid, MapSize;
    var todo := sfs.vnodes.Keys;
    while todo != {}
      invariant todo <= sfs.vnodes.Keys
      invariant forall i :: i in sfs.vnodes && i !in todo ==> i in sfs.owner && i < sfs.nblocks
      decreases todo
    {
      var i :| i in todo;
      InodeOnDisk(sfs.View(), sfs.owner, i);
      var used := sfs.Bused(i);
      // "Found inode in unallocated block"
      assert used;
      todo := todo - {i};
    }
  }

  lemma InodeOnDisk(fs: Fs, owner: Owner, i: nat)
    requires Inv(fs, owner) && (i in fs.vnodes || Live(owner, i))
    ensures Live(owner, i) && i < fs.nblocks
  {
    hide Ino, Ptr, PointersOwned, OwnedReached, FreshCleared, BitBlocks, DecodeInode;
    assert i >= fs.nblocks && i in owner ==> Reserved(fs.nblocks, i);
  }

  function Incremented(c: map<nat, nat>, j: nat): map<nat, nat> {
    c[j := if j in c then c[j] + 1 else 1]
  }

  // sfs_loadvnode of an existing inode: one more reference, nothing else.
  method LoadVnode(sfs: SfsFs, ino: nat)
    requires sfs.Valid() && ino in sfs.Files()
    requires sfs.Files()[ino].kind == TYPE_FILE || sfs.Files()[ino].kind == TYPE_DIR
    modifies sfs`vnodes
    ensures sfs.Valid() && sfs.Files() == old(sfs.Files())
    ensures sfs.Settled() == old(sfs.Settled())
    ensures sfs.Counts() == Incremented(old(sfs.Counts()), ino)
  {
    hide Inv, Images, Bitmap.Bits, Bitmap.Valid, MapSize, DecodeInode, Ptr;
    ghost var fs := sfs.View();
    CheckTable(sfs);
    FileIsLive(fs, sfs.owner, ino);
    if ino in sfs.vnodes {
      // VOP_INCREF
      var v := sfs.vnodes[ino];
      SetRefStep(fs, sfs.owner, ino, v.refcount + 1);
      sfs.vnodes := sfs.vnodes[ino := v.(refcount := v.refcount + 1)];
      assert sfs.View() == SetRef(fs, ino, v.refcount + 1);
    } else {
      InodeOnDisk(fs, sfs.owner, ino);
      DiskFacts(fs, sfs.owner);
      var used := sfs.Bused(ino);
      // "Tried to load inode from unallocated block"
      assert used;
      var n := DecodeInode(sfs.disk[ino]);
      // "Invalid inode type"
      assert n.kind == TYPE_FILE || n.kind == TYPE_DIR;
      LoadStep(fs, sfs.owner, ino);
      sfs.vnodes := sfs.vnodes[ino := Vnode(n, false, 1)];
      assert sfs.View() == Load(fs, ino);
    }
  }

  lemma FileIsLive(fs: Fs, owner: Owner, j: nat)
    requires j in Images(fs, owner)
    ensures Live(owner, j) && Images(fs, owner)[j].kind == Ino(fs, j).kind
  {
  }

  // sfs_makeobj: a new inode in a block nobody used, an empty file with no link yet.
  method MakeObj(sfs: SfsFs, kind: Half) returns (e: Err, ino: nat)
    requires sfs.Valid() && sfs.Settled()
    modifies sfs`disk, sfs`vnodes, sfs`owner, sfs.freemap.v
    ensures sfs.Valid() && sfs.Settled()
    ensures e == Ok || e == ENOSPC
    ensures e == Ok ==> ino !in old(sfs.Files()) && ino !in old(sfs.Counts()) && 0 < ino < 0x1_0000_0000
    ensures e == Ok ==> sfs.Files() == old(sfs.Files())[ino := EmptyImg(kind)]
    ensures e == Ok ==> sfs.Counts() == old(sfs.Counts())[ino := 1]
    ensures e == ENOSPC ==> sfs.Files() == old(sfs.Files()) && sfs.Counts() == old(sfs.Counts())
    ensures e == ENOSPC ==> forall c: nat :: c < sfs.nblocks ==> c in sfs.owner
    ensures e == Ok ==> ino !in old(sfs.owner) && forall c: nat :: c < ino ==> c in old(sfs.owner)
    ensures sfs.owner == if e == Ok then old(sfs.owner)[ino := InodeBlk] else old(sfs.owner)
  {
    hide Inv, Images, Bitmap.Bits, Bitmap.Valid, MapSize, DecodeInode, Ptr, NoFresh, EmptyImg;
    ghost var o, fs := sfs.owner, sfs.View();
    FilesOwned(fs, o);
    DiskFacts(fs, o);
    e, ino := sfs.Balloc();
    if e != Ok {
      return;
    }
    InstallInode(sfs, ino, kind, o);
  }

  // sfs_loadvnode with a forced type, on a block just allocated.
  method InstallInode(sfs: SfsFs, ino: nat, kind: Half, ghost o: Owner)
    requires sfs.Valid() && ino !in o && NoFresh(o) && sfs.owner == o[ino := Fresh] && ino < |sfs.disk|
    requires sfs.disk[ino] == ZeroBlock()
    modifies sfs`vnodes, sfs`owner
    ensures sfs.Valid() && sfs.Settled()
    ensures sfs.Files() == old(sfs.Files())[ino := EmptyImg(kind)]
    ensures sfs.Counts() == old(sfs.Counts())[ino := 1] && sfs.owner == o[ino := InodeBlk]
  {
    hide Inv, Images, Bitmap.Bits, Bitmap.Valid, MapSize, DecodeInode, Ptr, NoFresh, EmptyImg;
    ghost var fs := sfs.View();
    CheckTable(sfs);
    ZeroInodeDecodes();
    var n := DecodeInode(sfs.disk[ino]);
    assert n.kind == TYPE_INVAL;
    NewInodeStep(fs, sfs.owner, ino, kind);
    FreshUsed(o, ino, InodeBlk);
    sfs.vnodes := sfs.vnodes[ino := Vnode(n.(kind := kind), true, 1)];
    sfs.owner := sfs.owner[ino := InodeBlk];
    assert sfs.View() == NewInode(fs, ino, kind);
  }

  lemma FilesOwned(fs: Fs, owner: Owner)
    requires Inv(fs, owner)
    ensures forall j :: j in Images(fs, owner) ==> j in owner
    ensures forall j :: j in fs.vnodes ==> j in owner
  {
  }

  // ---- Dropping references ----

  // The files that remain once the reference count of j falls by one.
  function FilesAfterDrop(f: Files, c: map<nat, nat>, j: nat): Files
    requires j in f && j in c
  {
    if c[j] > 1 || f[j].links > 0 then f else f - {j}
  }

  function CountsAfterDrop(c: map<nat, nat>, j: nat): map<nat, nat>
    requires j in c && c[j] > 0
  {
    if c[j] > 1 then c[j := c[j] - 1] else c - {j}
  }

  // sfs_sync_inode
  method SyncInode(sfs: SfsFs, j: nat)
    requires sfs.Valid() && j in sfs.vnodes
    modifies sfs`disk, sfs`vnodes
    ensures sfs.Valid() && sfs.Files() == old(sfs.Files()) && sfs.Counts() == old(sfs.Counts())
    ensures j in sfs.vnodes && !sfs.vnodes[j].dirty
    ensures sfs.vnodes[j].inode == old(sfs.vnodes[j].inode)
    ensures sfs.vnodes.Keys == old(sfs.vnodes).Keys && forall i :: i in sfs.vnodes && i != j ==> sfs.vnodes[i] == old(sfs.vnodes)[i]
    ensures SamePointers(old(sfs.View()), sfs.owner, sfs.View())
  {
    hide Inv, Images, Bitmap.Bits, Bitmap.Valid, MapSize, EncodeInode, DecodeInode, Ptr;
    ghost var fs := sfs.View();
    if sfs.vnodes[j].dirty {
      InodeOnDisk(fs, sfs.owner, j);
      DiskFacts(fs, sfs.owner);
      SyncStep(fs, sfs.owner, j);
      sfs.disk := sfs.disk[j := EncodeInode(sfs.vnodes[j].inode)];
      sfs.vnodes := sfs.vnodes[j := sfs.vnodes[j].(dirty := false)];
      assert sfs.View() == Sync(fs, j);
    }
  }

  lemma NothingMapped(fs: Fs, owner: Owner, fs': Fs, j: nat)
    requires PointersCut(fs, owner, fs', j, BlockLen(0))
    ensures Ino(fs', j).indirect == 0 && forall k :: 0 <= k < 143 ==> Ptr(fs', j, k) == 0
  {
    hide Ino, Ptr, PointersCut, BlockLen;
    MappedPastEnd(fs, owner, fs', j, 0, 0);
    forall k | 0 <= k < 143 ensures Ptr(fs', j, k) == 0 {
      MappedPastEnd(fs, owner, fs', j, 0, k);
    }
  }

  // The first half of sfs_reclaim, when the file has no link left: its blocks go.
  method EmptyFile(sfs: SfsFs, j: nat)
    requires sfs.Valid() && sfs.Settled() && j in sfs.vnodes
    modifies sfs`disk, sfs`vnodes, sfs`owner, sfs.freemap.v
    ensures sfs.Valid() && sfs.Settled() && j in sfs.vnodes
    ensures sfs.Files() - {j} == old(sfs.Files()) - {j} && sfs.Counts() == old(sfs.Counts())
    ensures sfs.owner == old(sfs.owner) - Released(old(sfs.View()), j, BlockLen(0))
    ensures Ino(sfs.View(), j).indirect == 0 && forall k :: 0 <= k < 143 ==> Ptr(sfs.View(), j, k) == 0
  {
    hide Inv, Images, Bitmap.Bits, Bitmap.Valid, MapSize, Ptr, NoFresh, TruncateImg, Ino, Released, PointersCut, BlockLen;
    ghost var fs, o := sfs.View(), sfs.owner;
    TruncateFile(sfs, j, 0);
    ghost var fs1 := sfs.View();
    NothingMapped(fs, o, fs1, j);
    assert j in sfs.Counts();
    SyncInode(sfs, j);
    InoLoaded(fs1, j);
    InoLoaded(sfs.View(), j);
  }

  // sfs_reclaim, when the file has no link left: its blocks and its inode go.
  method Discard(sfs: SfsFs, j: nat)
    requires sfs.Valid() && sfs.Settled() && j in sfs.vnodes && j != 1
    modifies sfs`disk, sfs`vnodes, sfs`owner, sfs.freemap.v
    ensures sfs.Valid() && sfs.Settled()
    ensures sfs.Files() == old(sfs.Files()) - {j} && sfs.Counts() == old(sfs.Counts()) - {j}
    ensures j !in sfs.owner && forall b: nat :: b in sfs.owner ==> Has(old(sfs.owner), b, sfs.owner[b])
    ensures forall b: nat :: b in old(sfs.owner) && b !in sfs.owner ==> b == j || FileOf(old(sfs.owner)[b], j)
  {
    hide Inv, Images, Bitmap.Bits, Bitmap.Valid, MapSize, Ptr, NoFresh, Ino, Released, BlockLen, FileOf;
    ghost var fs, o := sfs.View(), sfs.owner;
    VnodeLive(fs, o, j);
    ReleasedOfFile(fs, o, j);
    EmptyFile(sfs, j);
    ghost var fs2, o1 := sfs.View(), sfs.owner;
    InodeOnDisk(fs2, o1, j);
    DiskFacts(fs2, o1);
    FreeInodeStep(fs2, o1, j);
    NoFreshLess(o1, {j});
    // sfs_bfree
    sfs.freemap.Unmark(j);
    sfs.owner := sfs.owner - {j};
    sfs.vnodes := sfs.vnodes - {j};
    assert sfs.View() == Unload(fs2, j);
  }

  predicate FileOf(r: Role, j: nat) {
    (r.Data? || r.Indirect?) && r.ino == j
  }

  lemma ReleasedOfFile(fs: Fs, owner: Owner, j: nat)
    requires Inv(fs, owner) && Live(owner, j)
    ensures forall b :: b in Released(fs, j, BlockLen(0)) ==> b in owner && FileOf(owner[b], j)
  {
    hide Released, Ino, Ptr, Layout, OwnedReached, VnodesCoherent, FreshCleared, BlockLen, PointersOwned, DropsIndirect;
    ReleasedRoles(fs, owner, j, BlockLen(0));
  }

  // vnode_decref with sfs_reclaim: the file is erased exactly when this was the
  // last reference and no link is left; otherwise nothing but the count changes.
  method Decref(sfs: SfsFs, j: nat)
    requires sfs.Valid() && sfs.Settled() && j in sfs.Counts()
    requires j == 1 ==> 1 in sfs.Files() && sfs.Files()[1].links > 0
    modifies sfs`disk, sfs`vnodes, sfs`owner, sfs.freemap.v
    ensures sfs.Valid() && sfs.Settled()
    ensures j in old(sfs.Files()) && j in old(sfs.Counts()) && old(sfs.Counts())[j] > 0
    ensures sfs.Files() == FilesAfterDrop(old(sfs.Files()), old(sfs.Counts()), j)
    ensures sfs.Counts() == CountsAfterDrop(old(sfs.Counts()), j)
    ensures old(sfs.Files())[j].links > 0 ==> sfs.owner == old(sfs.owner)
    ensures forall b: nat :: b in sfs.owner ==> Has(old(sfs.owner), b, sfs.owner[b])
    ensures forall b: nat :: b in old(sfs.owner) && b !in sfs.owner ==> b == j || FileOf(old(sfs.owner)[b], j)
    ensures j == 1 ==> sfs.owner == old(sfs.owner)
  {
    hide Inv, Images, Bitmap.Bits, Bitmap.Valid, MapSize, Ptr, NoFresh, DecodeInode;
    ghost var fs := sfs.View();
    ImageOf(fs, sfs.owner, j);
    Referenced(fs, sfs.owner, j);
    var v := sfs.vnodes[j];
    if v.refcount > 1 {
      SetRefStep(fs, sfs.owner, j, v.refcount - 1);
      sfs.vnodes := sfs.vnodes[j := v.(refcount := v.refcount - 1)];
      assert sfs.View() == SetRef(fs, j, v.refcount - 1);
    } else if v.inode.links == 0 {
      Discard(sfs, j);
    } else {
      SyncInode(sfs, j);
      ghost var fs1 := sfs.View();
      UnloadStep(fs1, sfs.owner, j);
      sfs.vnodes := sfs.vnodes - {j};
      assert sfs.View() == Unload(fs1, j);
    }
  }

  lemma Referenced(fs: Fs, owner: Owner, j: nat)
    requires Inv(fs, owner) && j in fs.vnodes
    ensures fs.vnodes[j].refcount > 0
  {
  }
}
