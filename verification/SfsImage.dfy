// The image mksfs writes, and the filesystem mounted from it.
module SfsImage {
  import opened SfsLayout
  import opened SfsBlocks
  import opened SfsSteps
  import opened SfsBytes
  import opened SfsCore
  import opened SfsIo
  import opened SfsDir
  import opened SfsDirOps
  import opened SfsVnodeOps
  import opened SfsTree
  import opened SfsNames
  import opened SfsMap
  import opened Bitmaps

  // A disk mksfs can format without allocating a bit twice: the superblock, the
  // root inode and the freemap fit on it, and the freemap fits in mksfs's buffer.
  predicate Formattable(n: nat) {
    2 + BitBlocks(n) <= n && BitBlocks(n) <= 32
  }

  function RootInode(): Inode {
    Inode(0, TYPE_DIR, 1, seq(15, _ => 0), 0)
  }

  // Blocks in use on a fresh image.
  predicate InUse(n: nat, b: nat) {
    b == 1 || Reserved(n, b)
  }

  ghost function ImageOwner(n: nat): (o: Owner)
    requires Formattable(n)
    ensures forall b: nat :: b in o <==> InUse(n, b)
    ensures forall b: nat :: Reserved(n, b) ==> Has(o, b, ReservedRole(n, b))
    ensures Live(o, 1) && forall b: nat :: Live(o, b) ==> b == 1
  {
    MapCoversDisk(n);
    map b: nat | b < MapSize(n) && InUse(n, b) :: if Reserved(n, b) then ReservedRole(n, b) else InodeBlk
  }

  lemma ImageLayout(n: nat, d: seq<Block>)
    requires Formattable(n) && |d| == n && IsSuper(d[0], n)
    ensures Layout(Fs(n, d, map[]), ImageOwner(n))
  {
    hide BitBlocks, ImageOwner;
    var o := ImageOwner(n);
    MapCoversDisk(n);
    assert MapSize(n) <= 32 * 4096;
  }

  // With an empty root inode in block 1, the fresh image meets the invariant.
  lemma ImageInv(n: nat, d: seq<Block>)
    requires Formattable(n) && |d| == n && IsSuper(d[0], n) && DecodeInode(d[1]) == RootInode()
    ensures Inv(Fs(n, d, map[]), ImageOwner(n)) && NoFresh(ImageOwner(n))
  {
    var fs := Fs(n, d, map[]);
    var o := ImageOwner(n);
    ImageLayout(n, d);
    assert Ino(fs, 1) == RootInode() by { hide DecodeInode; }
    hide BitBlocks, MapSize, ImageOwner, DecodeInode, Layout, Ino;
    forall k | 0 <= k < 143 ensures Ptr(fs, 1, k) == 0 {}
    hide Ptr, Reserved;
    forall b | b in o ensures !o[b].Data? && !o[b].Indirect? && !o[b].Fresh? {}
  }

  lemma EmptyRoot(n: nat, d: seq<Block>)
    requires Formattable(n) && |d| == n && DecodeInode(d[1]) == RootInode()
    ensures var f := Images(Fs(n, d, map[]), ImageOwner(n));
            f.Keys == {1} && f[1] == Img(TYPE_DIR, 1, 0, seq<Block>(143, _ => ZeroBlock()))
  {
    var fs := Fs(n, d, map[]);
    assert Ino(fs, 1) == RootInode() by { hide DecodeInode; }
    hide ImageOwner, DecodeInode, Ino;
    assert FileBlocks(fs, 1) == seq<Block>(143, _ => ZeroBlock());
  }

  // writebitmap: one bit at a time, each of them clear before.
  method WriteBitmap(n: nat) returns (fm: Bitmap)
    requires Formattable(n)
    ensures fresh(fm) && fresh(fm.v) && fm.Valid() && fm.nbits == MapSize(n)
    ensures fm.Bits() == ImageOwner(n).Keys
  {
    hide Bitmap.Bits, Bitmap.Valid, ImageOwner;
    MapCoversDisk(n);
    var nbits, nblocks := MapSize(n), BitBlocks(n);
    fm := new Bitmap(nbits);
    fm.Mark(0);
    fm.Mark(1);
    for i := 0 to nblocks
      invariant fm.Valid() && forall b: nat :: b in fm.Bits() <==> b < 2 + i
    {
      fm.Mark(2 + i);
    }
    for i := n to nbits
      invariant fm.Valid() && forall b: nat :: b in fm.Bits() <==> b < 2 + nblocks || n <= b < i
    {
      fm.Mark(i);
    }
    assert fm.Bits() == ImageOwner(n).Keys;
  }

  // mksfs: the superblock, the root inode and the freemap, over whatever was there.
  method MakeImage(d: seq<Block>, volname: seq<Byte>) returns (disk: seq<Block>)
    requires Formattable(|d|) && |volname| < VOLNAME_SIZE
    ensures |disk| == |d| && IsSuper(disk[0], |d|) && disk[1] == EncodeInode(RootInode())
    ensures 2 + BitBlocks(|d|) <= |d| && MapOnDisk(disk, |d|) == ImageOwner(|d|).Keys
  {
    hide Bitmap.Bits, ImageOwner, EncodeInode, MapBytes, BitsOf, IsSuper, EncodeSuper;
    var n := |d|;
    SizeIsWord(n);
    MapLength(n);
    disk := d[0 := EncodeSuper(n, volname)][1 := EncodeInode(RootInode())];
    var fm := WriteBitmap(n);
    ghost var before := disk;
    disk := SaveMap(fm, disk, BitBlocks(n));
    MapRoundTrip(before, fm.v[..], BitBlocks(n));
    BitsAre(fm);
  }

  lemma SizeIsWord(n: nat)
    requires Formattable(n)
    ensures n < 0x1_0000_0000
  {
    MapCoversDisk(n);
  }

  lemma BitsAre(fm: Bitmap)
    ensures fm.Bits() == BitsOf(fm.v[..], fm.nbits)
  {
  }

  // mksfs, then mount, then sfs_getroot: an empty directory and nothing else.
  method MakeAndMount(d: seq<Block>, volname: seq<Byte>) returns (sfs: SfsFs)
    requires Formattable(|d|) && |volname| < VOLNAME_SIZE
    ensures fresh(sfs) && fresh(sfs.freemap) && fresh(sfs.freemap.v)
    ensures Ready(sfs) && NamesOf(sfs) == map[] && sfs.nblocks == |d|
    ensures sfs.Files().Keys == {1} && sfs.Counts() == map[1 := 1]
  {
    hide Inv, Images, Bitmap.Bits, Bitmap.Valid, ImageOwner, EncodeInode, DecodeInode, MapSize, BitBlocks, MapBytes;
    var disk := MakeImage(d, volname);
    var n := |d|;
    InodeRoundTrip(RootInode());
    ImageInv(n, disk);
    EmptyRoot(n, disk);
    var e, mounted := DoMount(disk, ImageOwner(n));
    sfs := mounted;
    ghost var f := sfs.Files();
    LoadVnode(sfs, 1);
    EmptyTree(f);
  }

  lemma EmptyTree(f: Files)
    requires f.Keys == {1} && f[1].kind == TYPE_DIR && f[1].links == 1 && f[1].size == 0
    ensures TreeOk(f, map[1 := 1]) && Names(f) == map[]
  {
    var s := Entries(f[1]);
    assert s == [];
    LinksNone(s, 1);
    hide Links;
    assert forall n :: !Bound(s, n);
  }
}
