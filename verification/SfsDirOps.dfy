// Directory I/O: reading, writing and searching the slots of the root directory.
module SfsDirOps {
  import opened SfsLayout
  import opened SfsBlocks
  import opened SfsBytes
  import opened SfsCore
  import opened SfsIo
  import opened SfsDir
  import opened Bitmaps
  import opened Uios

  // The root directory is loaded and its image is a whole number of slots.
  ghost predicate RootReady(f: Files, c: map<nat, nat>) {
    1 in f && 1 in c && DirOk(f[1])
  }

  // ---- The blocks of the directory ----

  ghost predicate RootHas(o: Owner, k: nat) {
    exists b :: Has(o, b, Data(1, k))
  }

  // Every block the directory reaches into is mapped.
  ghost predicate SlotsMapped(f: Files, o: Owner) {
    1 in f && forall k: nat :: 512 * k < f[1].size ==> RootHas(o, k)
  }

  // The blocks of the root directory stay.
  ghost predicate RootKept(o: Owner, o': Owner) {
    forall b :: b in o && o[b].Data? && o[b].ino == 1 ==> Has(o', b, o[b])
  }

  lemma RootHasKept(o: Owner, o': Owner, k: nat)
    requires RootKept(o, o') && RootHas(o, k)
    ensures RootHas(o', k)
  {
    var b :| Has(o, b, Data(1, k));
    assert Has(o', b, Data(1, k));
  }

  lemma SlotsStayMapped(f: Files, o: Owner, f': Files, o': Owner)
    requires SlotsMapped(f, o) && RootKept(o, o') && 1 in f' && f'[1].size <= f[1].size
    ensures SlotsMapped(f', o')
  {
    hide RootHas, RootKept;
    forall k: nat | 512 * k < f'[1].size ensures RootHas(o', k) {
      RootHasKept(o, o', k);
    }
  }

  lemma GrownKeepsRoot(o: Owner, o': Owner, j: nat, lo: nat, hi: nat)
    requires Grown(o, o', j, lo, hi)
    ensures RootKept(o, o')
  {
  }

  // Dropping another file takes nothing from the root.
  lemma DropKeepsRoot(o: Owner, o': Owner, j: nat)
    requires Live(o, j) && (j == 1 ==> o' == o) && forall b: nat :: b in o' ==> Has(o, b, o'[b])
    requires forall b: nat :: b in o && b !in o' ==> b == j || ((o[b].Data? || o[b].Indirect?) && o[b].ino == j)
    ensures RootKept(o, o')
  {
    forall b | b in o && o[b].Data? && o[b].ino == 1 ensures Has(o', b, o[b]) {
      if b in o' { assert Has(o, b, o'[b]); }
    }
  }

  lemma RootBlockMapped(fs: Fs, owner: Owner, k: nat)
    requires Inv(fs, owner)
    ensures RootHas(owner, k) <==> k < 143 && Ptr(fs, 1, k) != 0
  {
    hide Ptr, Ino, BitBlocks, MapSize, VnodesCoherent, FreshCleared, IsSuper;
    LayoutDisk(fs, owner);
    if RootHas(owner, k) {
      var b :| Has(owner, b, Data(1, k));
      assert b != 0;
    }
    if k < 143 && Ptr(fs, 1, k) != 0 {
      assert Has(owner, Ptr(fs, 1, k), Data(1, k));
    }
  }

  lemma SlotDelivered(img: Img, s: nat, u0: UioState, u1: UioState)
    requires DirOk(img) && s < img.size / 64
    requires u0 == UioState(Zeros(64), 0, 64, 64 * s, 64)
    requires u1.resid <= 64 && Delivered(img, u0, u1, 64 - u1.resid)
    requires 64 - u1.resid == Available(img, u0)
    ensures u1.resid == 0 && u1.kbuf == Slice(img.blocks, 64 * s, 64)
  {
    hide Zeros;
    SlotInside(img, s);
    assert Available(img, u0) == 64;
    assert Splice(u0.kbuf, 0, Contents(img)[64 * s..64 * s + 64]) == Contents(img)[64 * s..64 * s + 64];
    assert Contents(img)[64 * s..64 * s + 64] == Slice(img.blocks, 64 * s, 64);
  }

  lemma SlotInside(img: Img, s: nat)
    requires DirOk(img) && s < img.size / 64
    ensures 64 * s + 64 <= img.size <= 73216
  {
  }

  // sfs_readdir
  method ReadSlot(sfs: SfsFs, s: nat) returns (b: seq<Byte>)
    requires sfs.Valid() && sfs.Settled() && RootReady(sfs.Files(), sfs.Counts()) && s < sfs.Files()[1].size / 64
    modifies sfs`disk, sfs`vnodes, sfs`owner, sfs.freemap.v
    ensures sfs.Valid() && sfs.Settled() && sfs.Files() == old(sfs.Files()) && sfs.Counts() == old(sfs.Counts())
    ensures |b| == 64 && DecodeEntry(b) == Entries(sfs.Files()[1])[s] && sfs.owner == old(sfs.owner)
  {
    hide Inv, Images, Bitmap.Bits, Bitmap.Valid, Refs, NoFresh, Delivered, DecodeEntry, Slice, Zeros;
    var u := new Uio(Zeros(64), 64 * s, true);
    ghost var u0 := u.State();
    SlotInside(sfs.Files()[1], s);
    var e := Read(sfs, 1, u);
    assert e == Ok;
    SlotDelivered(sfs.Files()[1], s, u0, u.State());
    // "readdir: Short entry"
    assert u.resid == 0;
    b := u.kbuf;
  }

  // A slot that names an inode lies in a mapped block: a hole reads as zeros.
  lemma UsedSlotMapped(fs: Fs, owner: Owner, s: nat)
    requires Inv(fs, owner) && 1 in fs.vnodes && 1 in Images(fs, owner) && DirOk(Images(fs, owner)[1])
    requires s < Images(fs, owner)[1].size / 64 && Entries(Images(fs, owner)[1])[s].ino != 0
    ensures Mapped(fs, 1, 64 * s)
  {
    var img := Images(fs, owner)[1];
    SlotInside(img, s);
    var k := 64 * s / 512;
    hide Inv, Ptr, Ino, ZeroBlock;
    FileBlock(fs, owner, 1, k);
    if Ptr(fs, 1, k) == 0 {
      SlotOfHole(img, s);
      assert false;
    }
  }

  lemma SlotOfHole(img: Img, s: nat)
    requires DirOk(img) && s < img.size / 64 && img.blocks[64 * s / 512] == ZeroBlock()
    ensures Entries(img)[s].ino == 0
  {
    SlotInside(img, s);
    var b := Slice(img.blocks, 64 * s, 64);
    forall i | 0 <= i < 4 ensures b[i] == 0 {
      assert (64 * s + i) / 512 == 64 * s / 512;
    }
  }

  // sfs_writedir: all 64 bytes or none, since a slot never crosses a block. It needs a new
  // block only for the first slot of one.
  method WriteSlot(sfs: SfsFs, s: nat, e: Entry) returns (r: Err)
    requires sfs.Valid() && sfs.Settled() && RootReady(sfs.Files(), sfs.Counts()) && s <= sfs.Files()[1].size / 64
    requires IsName(e.name) && |e.name| < 60 && SlotsMapped(sfs.Files(), sfs.owner)
    modifies sfs`disk, sfs`vnodes, sfs`owner, sfs.freemap.v
    ensures sfs.Valid() && sfs.Settled() && sfs.Counts() == old(sfs.Counts())
    ensures r == Ok || r == ENOSPC || r == EINVAL
    ensures r == Ok ==> s < 1144 && sfs.Files() == old(sfs.Files())[1 := WriteImg(old(sfs.Files())[1], 64 * s, EncodeEntry(e))]
    ensures r != Ok ==> sfs.Files() == old(sfs.Files())
    ensures r == ENOSPC ==> forall c: nat :: c < sfs.nblocks ==> c in sfs.owner
    ensures r == ENOSPC ==> s == old(sfs.Files())[1].size / 64 && s % 8 == 0
    ensures r == EINVAL ==> s == 1144
    ensures Grown(old(sfs.owner), sfs.owner, 1, s / 8, s / 8 + 1)
  {
    hide Inv, Images, Bitmap.Bits, Bitmap.Valid, Refs, NoFresh, Wrote, EncodeEntry, DecodeEntry, Ptr, Mapped, SlotsMapped, Grown;
    ghost var f0, fs := sfs.Files(), sfs.View();
    var d := EncodeEntry(e);
    var u := new Uio(d, 64 * s, false);
    ghost var u0 := u.State();
    SlotArithmetic(s, f0[1].size);
    SlotBlock(s);
    if s < f0[1].size / 64 || s % 8 != 0 {
      SlotIsMapped(fs, sfs.owner, s);
    }
    r := Write(sfs, 1, u);
    // "writedir: Short write"
    assert r == Ok ==> u.resid == 0;
    SlotWritten(f0, sfs.Files(), s, d, u0, u.State(), r);
  }

  lemma SlotBlock(s: nat)
    ensures 64 * s / 512 == s / 8 && (64 * s + 64 + 511) / 512 == s / 8 + 1
  {
  }

  lemma SlotIsMapped(fs: Fs, owner: Owner, s: nat)
    requires Inv(fs, owner) && SlotsMapped(Images(fs, owner), owner) && DirOk(Images(fs, owner)[1])
    requires s < Images(fs, owner)[1].size / 64 || (s == Images(fs, owner)[1].size / 64 && s % 8 != 0)
    ensures Mapped(fs, 1, 64 * s)
  {
    hide Inv, Ptr, RootHas;
    SlotBlock(s);
    RootBlockMapped(fs, owner, s / 8);
  }

  // A new entry leaves every block of the directory mapped.
  lemma EntryKeepsMapped(f: Files, o: Owner, fs: Fs, owner: Owner, s: nat)
    requires SlotsMapped(f, o) && RootKept(o, owner) && Inv(fs, owner) && 1 in fs.vnodes
    requires 1 in Images(fs, owner) && DirOk(Images(fs, owner)[1])
    requires Images(fs, owner)[1].size <= f[1].size || Images(fs, owner)[1].size == 64 * s + 64 == f[1].size + 64
    requires s < Images(fs, owner)[1].size / 64 && Entries(Images(fs, owner)[1])[s].ino != 0
    ensures SlotsMapped(Images(fs, owner), owner)
  {
    hide Inv, Ptr, RootHas, RootKept, Mapped, Entries;
    var size := Images(fs, owner)[1].size;
    UsedSlotMapped(fs, owner, s);
    SlotBlock(s);
    MappedHas(fs, owner, s);
    forall k: nat | 512 * k < size ensures RootHas(owner, k) {
      if 512 * k < f[1].size { RootHasKept(o, owner, k); }
    }
  }

  lemma MappedHas(fs: Fs, owner: Owner, s: nat)
    requires Inv(fs, owner) && Mapped(fs, 1, 64 * s)
    ensures RootHas(owner, s / 8)
  {
    hide Inv, Ptr, RootHas;
    SlotBlock(s);
    RootBlockMapped(fs, owner, s / 8);
  }

  lemma SlotArithmetic(s: nat, size: nat)
    requires size % 64 == 0 && size <= 73216 && s <= size / 64
    ensures s <= 1144 && 64 * s % 512 + 64 <= 512 && 64 * s <= size
    ensures s < 1144 ==> 64 * s + 64 <= 73216
  {
  }

  lemma NotBoundary(s: nat, m: nat)
    ensures 0 < m < 64 ==> (64 * s + m) % 512 != 0
  {
  }

  lemma SlotWritten(f0: Files, f1: Files, s: nat, d: seq<Byte>, u0: UioState, u1: UioState, r: Err)
    requires 1 in f0 && DirOk(f0[1]) && s <= f0[1].size / 64 && |d| == 64
    requires u0 == UioState(d, 0, 64, 64 * s, 64) && u1.resid <= 64
    requires Wrote(f0, f1, 1, u0, u1, 64 - u1.resid)
    requires r == Ok ==> u1.resid == 0
    requires r == Ok ==> u1.offset <= 73216
    requires r != Ok ==> u1.resid == 64 || (u1.resid > 0 && u1.offset % 512 == 0)
    ensures r == Ok ==> s < 1144 && f1 == f0[1 := WriteImg(f0[1], 64 * s, d)]
    ensures r != Ok ==> f1 == f0
  {
    hide Overlay;
    SlotArithmetic(s, f0[1].size);
    if r == Ok {
      assert d[0..64] == d;
    } else {
      NotBoundary(s, 64 - u1.resid);
      assert d[0..0] == [];
      OverlayNothing(f0[1].blocks, 64 * s);
    }
  }

  // The last empty slot below n, or -1.
  ghost predicate LastEmpty(s: seq<Entry>, n: nat, slot: int)
    requires n <= |s|
  {
    if slot < 0 then slot == -1 && forall i :: 0 <= i < n ==> s[i].ino != 0
    else slot < n && s[slot].ino == 0 && forall i :: slot < i < n ==> s[i].ino != 0
  }

  // sfs_dir_nentries
  method SlotCount(sfs: SfsFs) returns (n: nat)
    requires sfs.Valid() && RootReady(sfs.Files(), sfs.Counts())
    ensures n == |Entries(sfs.Files()[1])|
  {
    hide Inv, Images, Bitmap.Bits, Bitmap.Valid, DecodeEntry;
    RootImage(sfs.View(), sfs.owner);
    // "Invalid size"
    assert sfs.vnodes[1].inode.size % 64 == 0;
    n := sfs.vnodes[1].inode.size / 64;
  }

  // sfs_dir_findname: the slot bound to the name if there is one, and the last
  // empty slot on the way.
  method FindName(sfs: SfsFs, name: Name) returns (e: Err, ino: nat, slot: nat, emptyslot: int)
    requires sfs.Valid() && sfs.Settled() && RootReady(sfs.Files(), sfs.Counts())
    requires NamesUnique(Entries(sfs.Files()[1]))
    modifies sfs`disk, sfs`vnodes, sfs`owner, sfs.freemap.v
    ensures sfs.Valid() && sfs.Settled() && sfs.Files() == old(sfs.Files()) && sfs.Counts() == old(sfs.Counts())
    ensures sfs.owner == old(sfs.owner)
    ensures var s := Entries(sfs.Files()[1]);
            && (e == Ok || e == ENOENT)
            && (e == Ok <==> name in Directory(s))
            && (e == Ok ==> slot < |s| && 0 != ino == s[slot].ino == Directory(s)[name] && s[slot].name == name)
            && LastEmpty(s, |s|, emptyslot)
  {
    hide SfsFs.Valid, SfsFs.Files, SfsFs.Counts, SfsFs.Settled, DecodeEntry, Directory, Entries;
    ghost var f := sfs.Files();
    ghost var s := Entries(f[1]);
    var found := false;
    var nentries := SlotCount(sfs);
    ino, slot, emptyslot := 0, 0, -1;
    for i := 0 to nentries
      invariant sfs.Valid() && sfs.Settled() && sfs.Files() == f && sfs.Counts() == old(sfs.Counts())
      invariant sfs.owner == old(sfs.owner)
      invariant found ==> slot < i && 0 != ino == s[slot].ino && s[slot].name == name
      invariant !found ==> forall k :: 0 <= k < i && s[k].ino != 0 ==> s[k].name != name
      invariant LastEmpty(s, i, emptyslot)
    {
      var b := ReadSlot(sfs, i);
      var tsd := DecodeEntry(b);
      if tsd.ino == 0 {
        emptyslot := i;
      } else if tsd.name == name {
        // Each name may legally appear only once...
        assert !found;
        found, slot, ino := true, i, tsd.ino;
      }
    }
    assert found <==> Bound(s, name);
    e := if found then Ok else ENOENT;
  }

  lemma RootImage(fs: Fs, owner: Owner)
    requires Inv(fs, owner) && 1 in fs.vnodes
    ensures 1 in Images(fs, owner) && Images(fs, owner)[1].size == fs.vnodes[1].inode.size
  {
    hide Inv;
    ImageOf(fs, owner, 1);
  }
}
