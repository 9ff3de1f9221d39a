// The block level of SFS as values: which block plays which role, what a file's
// block map is, and how each elementary step of the code changes both.
//
// Owner is the book-keeping the code does not have: it names, for every block
// marked in the freemap, the one thing that block is used for.
module SfsBlocks {
  import opened SfsLayout

  // A loaded vnode: the in-memory inode, its dirty flag and the reference count.
  datatype Vnode = Vnode(inode: Inode, dirty: bool, refcount: nat)

  // What a block is used for. Fresh: allocated and cleared, not yet attached.
  datatype Role =
    | Super
    | FreeMap
    | Beyond
    | Fresh
    | InodeBlk
    | Indirect(ino: nat)
    | Data(ino: nat, blk: nat)

  type Owner = map<nat, Role>

  datatype Fs = Fs(nblocks: nat, disk: seq<Block>, vnodes: map<nat, Vnode>)

  // What a file is to the layers above: its inode's fields and its blocks, a hole
  // being a block of zeros.
  type Blocks = b: seq<Block> | |b| == 143 witness seq<Block>(143, _ => ZeroBlock())
  datatype Img = Img(kind: Half, links: Half, size: Word, blocks: Blocks)

  // ---- Reading the state ----

  function Blk(fs: Fs, b: nat): Block {
    if b < |fs.disk| then fs.disk[b] else ZeroBlock()
  }

  // The inode in force: the vnode's copy when loaded, the disk's otherwise.
  function Ino(fs: Fs, j: nat): Inode {
    if j in fs.vnodes then fs.vnodes[j].inode else DecodeInode(Blk(fs, j))
  }

  // Disk block of file block k of inode j; 0 is a hole.
  function Ptr(fs: Fs, j: nat, k: nat): Word
    requires k < 143
  {
    var n := Ino(fs, j);
    if k < 15 then n.direct[k]
    else if n.indirect == 0 then 0
    else Words(Blk(fs, n.indirect))[k - 15]
  }

  function BlockAt(fs: Fs, j: nat, k: nat): Block
    requires k < 143
  {
    if Ptr(fs, j, k) == 0 then ZeroBlock() else Blk(fs, Ptr(fs, j, k))
  }

  function FileBlocks(fs: Fs, j: nat): (s: Blocks)
    ensures forall k :: 0 <= k < 143 ==> s[k] == BlockAt(fs, j, k)
  {
    seq<Block>(143, k requires 0 <= k < 143 => BlockAt(fs, j, k))
  }

  function Image(fs: Fs, j: nat): Img {
    var n := Ino(fs, j);
    Img(n.kind, n.links, n.size, FileBlocks(fs, j))
  }

  predicate Has(owner: Owner, b: nat, r: Role) {
    b in owner && owner[b] == r
  }

  predicate Live(owner: Owner, j: nat) {
    Has(owner, j, InodeBlk)
  }

  ghost function Images(fs: Fs, owner: Owner): (m: map<nat, Img>)
    ensures forall j :: j in m <==> Live(owner, j)
    ensures forall j :: j in m ==> m[j] == Image(fs, j)
  {
    map j | j in owner && Live(owner, j) :: Image(fs, j)
  }

  function Refs(fs: Fs): (m: map<nat, nat>)
    ensures forall j :: j in m <==> j in fs.vnodes
    ensures forall j :: j in m ==> m[j] == fs.vnodes[j].refcount
  {
    map j | j in fs.vnodes :: fs.vnodes[j].refcount
  }

  // ---- The invariant ----

  function BitBlocks(nblocks: nat): nat {
    (nblocks + 4095) / 4096
  }

  function MapSize(nblocks: nat): nat {
    BitBlocks(nblocks) * 4096
  }

  lemma MapCoversDisk(nblocks: nat)
    ensures nblocks <= MapSize(nblocks)
  {
  }

  // Blocks whose role mksfs fixes: the superblock, the freemap blocks and the
  // bits past the end of the disk.
  predicate Fixed(r: Role) {
    r.Super? || r.FreeMap? || r.Beyond?
  }

  predicate Reserved(nblocks: nat, b: nat) {
    b == 0 || 2 <= b < 2 + BitBlocks(nblocks) || nblocks <= b < MapSize(nblocks)
  }

  function ReservedRole(nblocks: nat, b: nat): Role
    requires Reserved(nblocks, b)
  {
    if nblocks <= b then Beyond else if b == 0 then Super else FreeMap
  }

  ghost predicate Layout(fs: Fs, owner: Owner) {
    && |fs.disk| == fs.nblocks < 0x1_0000_0000
    && 2 + BitBlocks(fs.nblocks) <= fs.nblocks && IsSuper(Blk(fs, 0), fs.nblocks)
    && (forall b: nat :: Reserved(fs.nblocks, b) ==> Has(owner, b, ReservedRole(fs.nblocks, b)))
    && (forall b: nat :: b in owner ==> b < MapSize(fs.nblocks))
    && (forall b: nat :: b in owner && Fixed(owner[b]) ==> Reserved(fs.nblocks, b))
    && Live(owner, 1)
  }

  // Every pointer of a live inode leads to a block used for just that.
  ghost predicate PointersOwned(fs: Fs, owner: Owner) {
    && (forall j, k :: Live(owner, j) && 0 <= k < 143 && Ptr(fs, j, k) != 0 ==> Has(owner, Ptr(fs, j, k), Data(j, k)))
    && (forall j :: Live(owner, j) && Ino(fs, j).indirect != 0 ==> Has(owner, Ino(fs, j).indirect, Indirect(j)))
  }

  // Every block used by a file is reached from that file.
  ghost predicate OwnedReached(fs: Fs, owner: Owner) {
    && (forall b :: b in owner && owner[b].Data? ==>
          Live(owner, owner[b].ino) && owner[b].blk < 143 && Ptr(fs, owner[b].ino, owner[b].blk) == b)
    && (forall b :: b in owner && owner[b].Indirect? ==>
          Live(owner, owner[b].ino) && Ino(fs, owner[b].ino).indirect == b)
  }

  // Loaded vnodes are live inodes, referenced, and clean ones agree with the disk.
  ghost predicate VnodesCoherent(fs: Fs, owner: Owner) {
    forall j :: j in fs.vnodes ==>
      && Live(owner, j)
      && fs.vnodes[j].refcount > 0
      && (!fs.vnodes[j].dirty ==> DecodeInode(Blk(fs, j)) == fs.vnodes[j].inode)
  }

  ghost predicate FreshCleared(fs: Fs, owner: Owner) {
    forall b: nat :: Has(owner, b, Fresh) ==> b < fs.nblocks && Blk(fs, b) == ZeroBlock()
  }

  ghost predicate Inv(fs: Fs, owner: Owner) {
    && Layout(fs, owner)
    && PointersOwned(fs, owner)
    && OwnedReached(fs, owner)
    && VnodesCoherent(fs, owner)
    && FreshCleared(fs, owner)
  }

  // ---- Steps: what each elementary update keeps ----

  // Two states agree on an inode when its fields and block map do.
  lemma ImageAgrees(fs: Fs, fs': Fs, j: nat)
    requires Ino(fs, j).kind == Ino(fs', j).kind
    requires Ino(fs, j).links == Ino(fs', j).links
    requires Ino(fs, j).size == Ino(fs', j).size
    requires forall k :: 0 <= k < 143 ==> BlockAt(fs, j, k) == BlockAt(fs', j, k)
    ensures Image(fs, j) == Image(fs', j)
  {
    assert FileBlocks(fs, j) == FileBlocks(fs', j);
  }

  lemma ImagesAgree(fs: Fs, owner: Owner, fs': Fs, owner': Owner)
    requires forall j: nat :: Live(owner, j) <==> Live(owner', j)
    requires forall j: nat :: Live(owner, j) ==> Image(fs', j) == Image(fs, j)
    ensures Images(fs', owner') == Images(fs, owner)
  {
    hide Image;
    assert forall j :: j in Images(fs, owner) <==> j in Images(fs', owner');
  }

  // The fixed roles stay when a block without one changes to another such role.
  lemma LayoutKept(fs: Fs, owner: Owner, fs': Fs, b: nat, r: Role)
    requires Layout(fs, owner) && b < fs.nblocks && !Fixed(r)
    requires fs'.nblocks == fs.nblocks && |fs'.disk| == |fs.disk| && Blk(fs', 0) == Blk(fs, 0)
    requires b in owner ==> !Fixed(owner[b])
    requires b == 1 ==> r == InodeBlk
    ensures Layout(fs', owner[b := r])
  {
    hide MapSize, BitBlocks, IsSuper, Blk;
    MapCoversDisk(fs.nblocks);
    assert Reserved(fs.nblocks, b) ==> Has(owner, b, ReservedRole(fs.nblocks, b));
  }

  lemma LayoutKeptByRelease(fs: Fs, owner: Owner, fs': Fs, gone: set<nat>)
    requires Layout(fs, owner)
    requires fs'.nblocks == fs.nblocks && |fs'.disk| == |fs.disk| && Blk(fs', 0) == Blk(fs, 0)
    requires forall b :: b in gone && b in owner ==> !Fixed(owner[b])
    requires 1 !in gone
    ensures Layout(fs', owner - gone)
  {
    hide MapSize, BitBlocks, IsSuper, Blk;
    forall b: nat | Reserved(fs.nblocks, b)
      ensures Has(owner - gone, b, ReservedRole(fs.nblocks, b))
    {
      assert Has(owner, b, ReservedRole(fs.nblocks, b));
    }
  }

  // Every pointer of every live inode is where it was.
  ghost predicate SamePointers(fs: Fs, owner: Owner, fs': Fs) {
    && (forall j :: Live(owner, j) ==> Ino(fs', j).indirect == Ino(fs, j).indirect)
    && (forall j, k :: Live(owner, j) && 0 <= k < 143 ==> Ptr(fs', j, k) == Ptr(fs, j, k))
  }

  lemma OwnershipKept(fs: Fs, owner: Owner, fs': Fs, owner': Owner)
    requires PointersOwned(fs, owner) && OwnedReached(fs, owner)
    requires SamePointers(fs, owner, fs')
    requires forall j: nat :: Live(owner, j) <==> Live(owner', j)
    requires forall b :: b in owner && (owner[b].Data? || owner[b].Indirect?) ==> Has(owner', b, owner[b])
    requires forall b :: b in owner' && (owner'[b].Data? || owner'[b].Indirect?) ==> Has(owner, b, owner'[b])
    ensures PointersOwned(fs', owner') && OwnedReached(fs', owner')
  {
    hide Ptr, Ino;
  }

  // Writing a block that is neither an inode nor an indirect block moves no pointer.
  lemma WritesKeepPointers(fs: Fs, owner: Owner, b: nat, blk: Block)
    requires Layout(fs, owner) && PointersOwned(fs, owner) && b < fs.nblocks
    requires b in owner ==> owner[b].Data? || owner[b].Fresh?
    ensures var fs' := fs.(disk := fs.disk[b := blk]);
            SamePointers(fs, owner, fs') && forall j :: Live(owner, j) ==> Ino(fs', j) == Ino(fs, j)
  {
    hide DecodeInode, Words, MapSize, BitBlocks;
    var fs' := fs.(disk := fs.disk[b := blk]);
    forall j | Live(owner, j)
      ensures Ino(fs', j) == Ino(fs, j)
      ensures Ino(fs, j).indirect != 0 ==> Blk(fs', Ino(fs, j).indirect) == Blk(fs, Ino(fs, j).indirect)
    {
      assert b != j;
    }
  }

  function PutBlock(fs: Fs, b: nat, blk: Block): Fs
    requires b < |fs.disk|
  {
    fs.(disk := fs.disk[b := blk])
  }

  lemma BlockKept(fs: Fs, b: nat, blk: Block, c: nat)
    requires b < |fs.disk| && c != b
    ensures Blk(PutBlock(fs, b, blk), c) == Blk(fs, c)
  {
  }

  function PutInode(fs: Fs, j: nat, n: Inode): Fs
    requires j in fs.vnodes
  {
    fs.(vnodes := fs.vnodes[j := fs.vnodes[j].(inode := n, dirty := true)])
  }

  // ---- Allocating a block: sfs_balloc ----

  lemma AllocKeepsRest(fs: Fs, owner: Owner, b: nat)
    requires Layout(fs, owner) && VnodesCoherent(fs, owner) && FreshCleared(fs, owner)
    requires b < fs.nblocks && b !in owner
    ensures VnodesCoherent(PutBlock(fs, b, ZeroBlock()), owner[b := Fresh])
    ensures FreshCleared(PutBlock(fs, b, ZeroBlock()), owner[b := Fresh])
  {
    hide DecodeInode, MapSize, BitBlocks;
    var fs' := PutBlock(fs, b, ZeroBlock());
    var owner' := owner[b := Fresh];
    forall c: nat | Has(owner', c, Fresh)
      ensures c < fs'.nblocks && Blk(fs', c) == ZeroBlock()
    {
      if c != b { assert Has(owner, c, Fresh); }
    }
  }

  lemma AllocKeepsImages(fs: Fs, owner: Owner, b: nat)
    requires Layout(fs, owner) && PointersOwned(fs, owner)
    requires b < fs.nblocks && b !in owner
    ensures Images(PutBlock(fs, b, ZeroBlock()), owner[b := Fresh]) == Images(fs, owner)
  {
    hide Ino, Ptr, Image, MapSize, BitBlocks;
    var fs' := PutBlock(fs, b, ZeroBlock());
    WritesKeepPointers(fs, owner, b, ZeroBlock());
    forall j | Live(owner, j) ensures Image(fs', j) == Image(fs, j) {
      ImageAgrees(fs, fs', j);
    }
    ImagesAgree(fs, owner, fs', owner[b := Fresh]);
  }

  // Marking and clearing a block nobody uses changes no file.
  lemma AllocStep(fs: Fs, owner: Owner, b: nat)
    requires Inv(fs, owner) && b < fs.nblocks && b !in owner
    ensures Inv(PutBlock(fs, b, ZeroBlock()), owner[b := Fresh])
    ensures Images(PutBlock(fs, b, ZeroBlock()), owner[b := Fresh]) == Images(fs, owner)
  {
    hide Images, Layout, PointersOwned, OwnedReached, VnodesCoherent, FreshCleared, Reserved;
    LayoutDisk(fs, owner);
    var fs' := PutBlock(fs, b, ZeroBlock());
    AllocKeepsRest(fs, owner, b);
    AllocKeepsImages(fs, owner, b);
    WritesKeepPointers(fs, owner, b, ZeroBlock());
    LayoutKept(fs, owner, fs', b, Fresh);
    OwnershipKept(fs, owner, fs', owner[b := Fresh]);
  }

  lemma LayoutDisk(fs: Fs, owner: Owner)
    requires Layout(fs, owner)
    ensures |fs.disk| == fs.nblocks
    ensures 0 in owner && Fixed(owner[0]) && !owner[0].FreeMap? && Live(owner, 1)
  {
    assert Reserved(fs.nblocks, 0);
  }

  // ---- Attaching a block to a file: sfs_bmap ----

  // Pointer (j, k) moves from hole to block b and nothing else moves.
  ghost predicate OnePointerAttached(fs: Fs, owner: Owner, fs': Fs, j: nat, k: nat, b: nat)
    requires k < 143
  {
    && Ptr(fs, j, k) == 0 && Ptr(fs', j, k) == b
    && (forall i :: Live(owner, i) ==> Ino(fs', i).indirect == Ino(fs, i).indirect)
    && (forall i, h :: Live(owner, i) && 0 <= h < 143 && (i != j || h != k) ==> Ptr(fs', i, h) == Ptr(fs, i, h))
  }

  lemma OwnershipAttached(fs: Fs, owner: Owner, fs': Fs, j: nat, k: nat, b: nat)
    requires PointersOwned(fs, owner) && OwnedReached(fs, owner)
    requires 0 in owner && Fixed(owner[0])
    requires Live(owner, j) && k < 143 && Has(owner, b, Fresh)
    requires OnePointerAttached(fs, owner, fs', j, k, b)
    ensures PointersOwned(fs', owner[b := Data(j, k)]) && OwnedReached(fs', owner[b := Data(j, k)])
  {
    hide Ptr, Ino;
    var owner' := owner[b := Data(j, k)];
    assert forall i: nat :: Live(owner', i) <==> Live(owner, i);
  }

  lemma OwnershipIndirect(fs: Fs, owner: Owner, fs': Fs, j: nat, b: nat)
    requires PointersOwned(fs, owner) && OwnedReached(fs, owner)
    requires 0 in owner && Fixed(owner[0])
    requires Live(owner, j) && Has(owner, b, Fresh)
    requires Ino(fs, j).indirect == 0 && Ino(fs', j).indirect == b
    requires forall i :: Live(owner, i) && i != j ==> Ino(fs', i).indirect == Ino(fs, i).indirect
    requires forall i, h :: Live(owner, i) && 0 <= h < 143 ==> Ptr(fs', i, h) == Ptr(fs, i, h)
    ensures PointersOwned(fs', owner[b := Indirect(j)]) && OwnedReached(fs', owner[b := Indirect(j)])
  {
    hide Ptr, Ino;
    var owner' := owner[b := Indirect(j)];
    assert forall i: nat :: Live(owner', i) <==> Live(owner, i);
  }

  // A vnode update keeps the cache coherent and disturbs no other inode.
  lemma PutInodeKeeps(fs: Fs, owner: Owner, owner': Owner, j: nat, n: Inode)
    requires VnodesCoherent(fs, owner) && FreshCleared(fs, owner) && j in fs.vnodes
    requires forall i: nat :: Live(owner, i) ==> Live(owner', i)
    requires forall c: nat :: Has(owner', c, Fresh) ==> Has(owner, c, Fresh)
    ensures VnodesCoherent(PutInode(fs, j, n), owner')
    ensures FreshCleared(PutInode(fs, j, n), owner')
    ensures Ino(PutInode(fs, j, n), j) == n
    ensures forall i :: i != j ==> Ino(PutInode(fs, j, n), i) == Ino(fs, i)
    ensures forall i, h :: i != j && 0 <= h < 143 ==> Ptr(PutInode(fs, j, n), i, h) == Ptr(fs, i, h)
  {
    hide DecodeInode, Words;
  }

  // Same blocks for every file, whatever the pointers.
  lemma BlocksKeptImages(fs: Fs, owner: Owner, fs': Fs, owner': Owner)
    requires forall j: nat :: Live(owner, j) <==> Live(owner', j)
    requires forall j :: Live(owner, j) ==>
               && Ino(fs', j).kind == Ino(fs, j).kind && Ino(fs', j).links == Ino(fs, j).links
               && Ino(fs', j).size == Ino(fs, j).size
    requires forall j, k :: Live(owner, j) && 0 <= k < 143 ==> BlockAt(fs', j, k) == BlockAt(fs, j, k)
    ensures Images(fs', owner') == Images(fs, owner)
  {
    hide Ino, BlockAt, Image;
    forall j | Live(owner, j) ensures Image(fs', j) == Image(fs, j) {
      ImageAgrees(fs, fs', j);
    }
    ImagesAgree(fs, owner, fs', owner');
  }

  lemma AttachDirectPointers(fs: Fs, owner: Owner, j: nat, k: nat, b: Word)
    requires VnodesCoherent(fs, owner) && j in fs.vnodes && k < 15 && Ptr(fs, j, k) == 0
    ensures var n := Ino(fs, j);
            OnePointerAttached(fs, owner, PutInode(fs, j, n.(direct := n.direct[k := b])), j, k, b)
  {
    hide DecodeInode, Words;
    var n := Ino(fs, j);
    var fs' := PutInode(fs, j, n.(direct := n.direct[k := b]));
    assert Ino(fs', j) == n.(direct := n.direct[k := b]);
    assert forall i :: i != j ==> Ino(fs', i) == Ino(fs, i);
  }

  // sfs_bmap, direct case: the fresh block becomes file block k.
  lemma AttachDirectStep(fs: Fs, owner: Owner, j: nat, k: nat, b: Word)
    requires Inv(fs, owner) && j in fs.vnodes && k < 15
    requires Has(owner, b, Fresh) && Ptr(fs, j, k) == 0
    ensures var n := Ino(fs, j); var fs' := PutInode(fs, j, n.(direct := n.direct[k := b]));
            && Inv(fs', owner[b := Data(j, k)])
            && Images(fs', owner[b := Data(j, k)]) == Images(fs, owner)
            && OnePointerAttached(fs, owner, fs', j, k, b)
  {
    var n := Ino(fs, j);
    var fs' := PutInode(fs, j, n.(direct := n.direct[k := b]));
    var owner' := owner[b := Data(j, k)];
    hide Ino, Ptr, Images, PutInode, Reserved, Layout, PointersOwned, OwnedReached;
    LayoutDisk(fs, owner);
    AttachDirectPointers(fs, owner, j, k, b);
    PutInodeKeeps(fs, owner, owner', j, n.(direct := n.direct[k := b]));
    OwnershipAttached(fs, owner, fs', j, k, b);
    LayoutKept(fs, owner, fs', b, Data(j, k));
    BlocksKeptImages(fs, owner, fs', owner');
  }

  lemma AttachIndirectPointers(fs: Fs, owner: Owner, j: nat, b: Word)
    requires VnodesCoherent(fs, owner) && j in fs.vnodes && Ino(fs, j).indirect == 0
    requires Blk(fs, b) == ZeroBlock()
    ensures var fs' := PutInode(fs, j, Ino(fs, j).(indirect := b));
            forall i, h :: Live(owner, i) && 0 <= h < 143 ==> Ptr(fs', i, h) == Ptr(fs, i, h)
  {
    hide DecodeInode, Words;
    var fs' := PutInode(fs, j, Ino(fs, j).(indirect := b));
    assert Ino(fs', j) == Ino(fs, j).(indirect := b);
    assert forall i :: i != j ==> Ino(fs', i) == Ino(fs, i);
    WordsOfZero();
  }

  // sfs_bmap, indirect case: an empty indirect block maps nothing.
  lemma AttachIndirectStep(fs: Fs, owner: Owner, j: nat, b: Word)
    requires Inv(fs, owner) && j in fs.vnodes
    requires Has(owner, b, Fresh) && Ino(fs, j).indirect == 0
    ensures var fs' := PutInode(fs, j, Ino(fs, j).(indirect := b));
            && Inv(fs', owner[b := Indirect(j)])
            && Images(fs', owner[b := Indirect(j)]) == Images(fs, owner)
            && SamePtrs(fs, owner, fs')
  {
    var n := Ino(fs, j).(indirect := b);
    var fs' := PutInode(fs, j, n);
    var owner' := owner[b := Indirect(j)];
    hide Ino, Ptr, Images, PutInode, Reserved, Layout, PointersOwned, OwnedReached;
    LayoutDisk(fs, owner);
    AttachIndirectPointers(fs, owner, j, b);
    PutInodeKeeps(fs, owner, owner', j, n);
    OwnershipIndirect(fs, owner, fs', j, b);
    LayoutKept(fs, owner, fs', b, Indirect(j));
    BlocksKeptImages(fs, owner, fs', owner');
  }

  ghost predicate SamePtrs(fs: Fs, owner: Owner, fs': Fs) {
    forall i, h :: Live(owner, i) && 0 <= h < 143 ==> Ptr(fs', i, h) == Ptr(fs, i, h)
  }

  // The indirect block with entry k - 15 set to b.
  function PutEntry(fs: Fs, j: nat, k: nat, b: Word): Fs
    requires 15 <= k < 143 && Ino(fs, j).indirect < |fs.disk|
  {
    var i := Ino(fs, j).indirect;
    PutBlock(fs, i, Bytes(Words(Blk(fs, i))[k - 15 := b]))
  }

  // An entry in an indirect block changes no inode,
  lemma PutEntryInodes(fs: Fs, owner: Owner, j: nat, k: nat, b: Word)
    requires Layout(fs, owner) && PointersOwned(fs, owner)
    requires Live(owner, j) && 15 <= k < 143 && 0 != Ino(fs, j).indirect < fs.nblocks
    ensures forall i :: Live(owner, i) ==> Ino(PutEntry(fs, j, k, b), i) == Ino(fs, i)
    ensures Words(Blk(PutEntry(fs, j, k, b), Ino(fs, j).indirect)) == Words(Blk(fs, Ino(fs, j).indirect))[k - 15 := b]
    ensures forall c: nat :: c != Ino(fs, j).indirect ==> Blk(PutEntry(fs, j, k, b), c) == Blk(fs, c)
  {
    hide DecodeInode, Words, Bytes, MapSize, BitBlocks, Reserved, IsSuper;
    var d := Ino(fs, j).indirect;
    WordsOfBytes(Words(Blk(fs, d))[k - 15 := b]);
    assert Has(owner, d, Indirect(j));
  }

  // and the pointer it enters and no other.
  lemma PutEntryPtr(fs: Fs, owner: Owner, j: nat, k: nat, b: Word, i: nat, h: nat)
    requires Layout(fs, owner) && PointersOwned(fs, owner)
    requires Live(owner, j) && 15 <= k < 143 && 0 != Ino(fs, j).indirect < fs.nblocks
    requires Live(owner, i) && h < 143
    ensures Ptr(PutEntry(fs, j, k, b), i, h) == if i == j && h == k then b else Ptr(fs, i, h)
  {
    PutEntryInodes(fs, owner, j, k, b);
    IndirectApart(fs, owner, i, j);
    hide Ino, Blk, Words, PutEntry, Layout, PointersOwned, Live;
  }

  lemma IndirectApart(fs: Fs, owner: Owner, i: nat, j: nat)
    requires PointersOwned(fs, owner) && Live(owner, i) && Live(owner, j)
    ensures i != j && Ino(fs, i).indirect != 0 ==> Ino(fs, i).indirect != Ino(fs, j).indirect
  {
    hide Ino, Ptr;
    if Ino(fs, i).indirect != 0 { assert Has(owner, Ino(fs, i).indirect, Indirect(i)); }
    if Ino(fs, j).indirect != 0 { assert Has(owner, Ino(fs, j).indirect, Indirect(j)); }
  }

  lemma PutEntryPointers(fs: Fs, owner: Owner, j: nat, k: nat, b: Word)
    requires Layout(fs, owner) && PointersOwned(fs, owner)
    requires Live(owner, j) && 15 <= k < 143 && 0 != Ino(fs, j).indirect < fs.nblocks && Ptr(fs, j, k) == 0
    ensures OnePointerAttached(fs, owner, PutEntry(fs, j, k, b), j, k, b)
    ensures forall i :: Live(owner, i) ==> Ino(PutEntry(fs, j, k, b), i) == Ino(fs, i)
  {
    hide Ino, Ptr, Blk, Words, PutEntry, Layout, PointersOwned, Live;
    LayoutDisk(fs, owner);
    PutEntryInodes(fs, owner, j, k, b);
    PutEntryPtr(fs, owner, j, k, b, j, k);
    forall i, h | Live(owner, i) && 0 <= h < 143 && (i != j || h != k)
      ensures Ptr(PutEntry(fs, j, k, b), i, h) == Ptr(fs, i, h)
    {
      PutEntryPtr(fs, owner, j, k, b, i, h);
    }
  }

  // A disk write to a block that is not an inode leaves cached inodes coherent.
  lemma PutBlockKeeps(fs: Fs, owner: Owner, owner': Owner, d: nat, blk: Block)
    requires VnodesCoherent(fs, owner) && FreshCleared(fs, owner) && d < |fs.disk|
    requires d in owner && !owner[d].InodeBlk? && !owner[d].Fresh?
    requires forall i: nat :: Live(owner, i) ==> Live(owner', i)
    requires forall c: nat :: Has(owner', c, Fresh) ==> Has(owner, c, Fresh)
    ensures VnodesCoherent(PutBlock(fs, d, blk), owner')
    ensures FreshCleared(PutBlock(fs, d, blk), owner')
  {
    hide DecodeInode;
  }

  // A block unchanged on disk, reached by an unchanged or freshly attached pointer.
  lemma PutEntryBlock(fs: Fs, fs': Fs, d: nat, i: nat, h: nat)
    requires h < 143 && |fs.disk| == |fs'.disk|
    requires forall c: nat :: c != d ==> Blk(fs', c) == Blk(fs, c)
    requires Ptr(fs', i, h) == Ptr(fs, i, h) || (Ptr(fs, i, h) == 0 && Blk(fs, Ptr(fs', i, h)) == ZeroBlock())
    requires Ptr(fs', i, h) != d
    ensures BlockAt(fs', i, h) == BlockAt(fs, i, h)
  {
    hide Ino, Ptr, Blk, ZeroBlock;
  }

  lemma PutEntryBlocks(fs: Fs, owner: Owner, j: nat, k: nat, b: Word)
    requires Layout(fs, owner) && PointersOwned(fs, owner) && FreshCleared(fs, owner)
    requires Live(owner, j) && 15 <= k < 143 && 0 != Ino(fs, j).indirect < fs.nblocks && Ptr(fs, j, k) == 0
    requires Has(owner, b, Fresh)
    ensures forall i, h :: Live(owner, i) && 0 <= h < 143 ==>
              BlockAt(PutEntry(fs, j, k, b), i, h) == BlockAt(fs, i, h)
  {
    var fs' := PutEntry(fs, j, k, b);
    var d := Ino(fs, j).indirect;
    assert forall c: nat :: c != d ==> Blk(fs', c) == Blk(fs, c);
    assert |fs.disk| == |fs'.disk|;
    LayoutDisk(fs, owner);
    hide Ino, Ptr, Words, Bytes, Layout, Blk, BlockAt, ZeroBlock, PutEntry;
    PutEntryPointers(fs, owner, j, k, b);
    assert Has(owner, d, Indirect(j));
    forall i, h | Live(owner, i) && 0 <= h < 143
      ensures BlockAt(fs', i, h) == BlockAt(fs, i, h)
    {
      assert Ptr(fs, i, h) != 0 ==> Has(owner, Ptr(fs, i, h), Data(i, h));
      PutEntryBlock(fs, fs', d, i, h);
    }
  }

  // sfs_bmap, indirect case: the fresh block is entered in the indirect block.
  lemma AttachEntryStep(fs: Fs, owner: Owner, j: nat, k: nat, b: Word)
    requires Inv(fs, owner) && j in fs.vnodes && 15 <= k < 143
    requires Has(owner, b, Fresh) && 0 != Ino(fs, j).indirect < fs.nblocks && Ptr(fs, j, k) == 0
    ensures var fs' := PutEntry(fs, j, k, b);
            && Inv(fs', owner[b := Data(j, k)])
            && Images(fs', owner[b := Data(j, k)]) == Images(fs, owner)
            && OnePointerAttached(fs, owner, fs', j, k, b)
  {
    var d := Ino(fs, j).indirect;
    assert Has(owner, d, Indirect(j));
    var fs' := PutEntry(fs, j, k, b);
    var owner' := owner[b := Data(j, k)];
    LayoutDisk(fs, owner);
    assert fs' == PutBlock(fs, d, Bytes(Words(Blk(fs, d))[k - 15 := b]));
    assert fs'.nblocks == fs.nblocks && |fs'.disk| == |fs.disk|;
    BlockKept(fs, d, Bytes(Words(Blk(fs, d))[k - 15 := b]), 0);
    hide Ino, Ptr, Images, Words, Bytes, Reserved, Layout, PointersOwned, OwnedReached, VnodesCoherent, FreshCleared;
    hide BlockAt, Blk, PutBlock;
    PutEntryPointers(fs, owner, j, k, b);
    PutEntryBlocks(fs, owner, j, k, b);
    PutBlockKeeps(fs, owner, owner', d, Bytes(Words(Blk(fs, d))[k - 15 := b]));
    OwnershipAttached(fs, owner, fs', j, k, b);
    LayoutKept(fs, owner, fs', b, Data(j, k));
    BlocksKeptImages(fs, owner, fs', owner');
  }
}
