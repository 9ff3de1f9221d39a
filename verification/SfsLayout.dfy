// On-disk structures of SFS, down to the byte: blocks, indirect blocks, inodes
// and directory entries, with the round trips between bytes and structures.
module SfsLayout {

  // A block has 512 bytes: 128 words, or 4096 bits of the freemap. Block 0 is the superblock,
  // block 1 the root directory's inode, and the freemap starts at block 2. An inode maps 15
  // direct blocks and one indirect block, so 143 blocks or 73216 bytes. A directory slot has
  // 64 bytes, 60 of them for the name; inode number 0 says it is empty.

  // off_t is a signed 32-bit integer.
  const OFF_MAX: nat := 0x7fff_ffff

  const MAGIC: Word := 0xabad_f001
  const VOLNAME_SIZE: nat := 32

  const TYPE_INVAL: Half := 0
  const TYPE_FILE: Half := 1
  const TYPE_DIR: Half := 2

  type Byte = x: int | 0 <= x < 256
  type Half = x: int | 0 <= x < 0x1_0000
  type Word = x: int | 0 <= x < 0x1_0000_0000

  type Block = b: seq<Byte> | |b| == 512 witness seq(512, _ => 0)
  type WordBlock = w: seq<Word> | |w| == 128 witness seq(128, _ => 0)
  type Direct = d: seq<Word> | |d| == 15 witness seq(15, _ => 0)

  function ZeroBlock(): (b: Block)
    ensures forall i :: 0 <= i < 512 ==> b[i] == 0
  {
    seq(512, _ => 0)
  }

  // ---- Big-endian words ----

  function Join(b0: Byte, b1: Byte, b2: Byte, b3: Byte): Word {
    0x100_0000 * (b0 as int) + 0x1_0000 * (b1 as int) + 0x100 * (b2 as int) + b3
  }

  function WordAt(b: Block, i: nat): Word
    requires i < 128
  {
    Join(b[4 * i], b[4 * i + 1], b[4 * i + 2], b[4 * i + 3])
  }

  function ByteOf(w: Word, k: nat): (b: Byte)
    requires k < 4
  {
    if k == 0 then w / 0x100_0000
    else if k == 1 then w / 0x1_0000 % 256
    else if k == 2 then w / 256 % 256
    else w % 256
  }

  function Words(b: Block): (w: WordBlock)
    ensures forall i :: 0 <= i < 128 ==> w[i] == WordAt(b, i)
  {
    seq(128, i requires 0 <= i < 128 => WordAt(b, i))
  }

  function Bytes(w: WordBlock): (b: Block)
    ensures forall k :: 0 <= k < 512 ==> b[k] == ByteOf(w[k / 4], k % 4)
  {
    seq(512, k requires 0 <= k < 512 => ByteOf(w[k / 4], k % 4))
  }

  lemma WordOfBytes(w: Word)
    ensures Join(ByteOf(w, 0), ByteOf(w, 1), ByteOf(w, 2), ByteOf(w, 3)) == w
  {
  }

  // ---- The superblock ----

  // What sfs_domount looks for: the magic number and the number of blocks.
  predicate IsSuper(b: Block, n: nat) {
    WordAt(b, 0) == MAGIC && WordAt(b, 1) == n
  }

  // writesuper of mksfs.
  function EncodeSuper(n: Word, volname: seq<Byte>): (b: Block)
    ensures IsSuper(b, n)
    ensures |volname| < VOLNAME_SIZE ==> b[8..8 + |volname|] == volname && forall i :: 8 + |volname| <= i < 512 ==> b[i] == 0
  {
    WordOfBytes(MAGIC);
    WordOfBytes(n);
    seq(512, i requires 0 <= i < 512 =>
      if i < 4 then ByteOf(MAGIC, i) else if i < 8 then ByteOf(n, i - 4)
      else if i - 8 < |volname| && i - 8 < VOLNAME_SIZE then volname[i - 8] else 0)
  }

  // An indirect block written to disk reads back as the same 128 block numbers.
  lemma WordsOfBytes(w: WordBlock)
    ensures Words(Bytes(w)) == w
  {
    forall i | 0 <= i < 128
      ensures WordAt(Bytes(w), i) == w[i]
    {
      var b := Bytes(w);
      assert (4 * i) / 4 == i && (4 * i) % 4 == 0;
      assert (4 * i + 1) / 4 == i && (4 * i + 1) % 4 == 1;
      assert (4 * i + 2) / 4 == i && (4 * i + 2) % 4 == 2;
      assert (4 * i + 3) / 4 == i && (4 * i + 3) % 4 == 3;
      WordOfBytes(w[i]);
    }
  }

  lemma WordsOfZero()
    ensures forall i :: 0 <= i < 128 ==> Words(ZeroBlock())[i] == 0
  {
  }

  // ---- Inodes ----

  datatype Inode = Inode(size: Word, kind: Half, links: Half, direct: Direct, indirect: Word)

  function ZeroInode(): Inode {
    Inode(0, TYPE_INVAL, 0, seq(15, _ => 0), 0)
  }

  function InodeWords(n: Inode): (w: WordBlock)
  {
    [n.size, n.kind * 0x1_0000 + n.links] + n.direct + [n.indirect] + seq(110, _ => 0)
  }

  function EncodeInode(n: Inode): Block {
    Bytes(InodeWords(n))
  }

  function InodeFrom(w: WordBlock): Inode {
    Inode(w[0], w[1] / 0x1_0000, w[1] % 0x1_0000, w[2..17], w[17])
  }

  function DecodeInode(b: Block): Inode {
    InodeFrom(Words(b))
  }

  lemma InodeFromWords(n: Inode)
    ensures InodeFrom(InodeWords(n)) == n
  {
    var w := InodeWords(n);
    assert w[2..17] == n.direct;
  }

  // Where the fields of an inode lie in its block, most significant byte first: size at byte
  // 0, type at 4, link count at 6, the direct pointers from 8 on, the indirect one at 68.
  lemma InodeLayout(n: Inode)
    ensures var b := EncodeInode(n);
            && WordAt(b, 0) == n.size && 256 * (b[4] as int) + b[5] == n.kind && 256 * (b[6] as int) + b[7] == n.links
            && (forall i :: 0 <= i < 15 ==> WordAt(b, 2 + i) == n.direct[i]) && WordAt(b, 17) == n.indirect
            && (forall i :: 18 <= i < 128 ==> WordAt(b, i) == 0)
  {
    hide WordAt, Bytes, InodeWords;
    var w, b := InodeWords(n), EncodeInode(n);
    WordsOfBytes(w);
    assert forall i :: 0 <= i < 128 ==> WordAt(b, i) == w[i] by { WordsAre(b); }
    InodeWordsAre(n);
    HalvesAt(b, n.kind, n.links);
  }

  lemma WordsAre(b: Block)
    ensures forall i :: 0 <= i < 128 ==> Words(b)[i] == WordAt(b, i)
  {
    hide WordAt;
  }

  lemma InodeWordsAre(n: Inode)
    ensures var w := InodeWords(n);
            && w[0] == n.size && w[1] == 0x1_0000 * (n.kind as int) + n.links
            && (forall i :: 0 <= i < 15 ==> w[2 + i] == n.direct[i]) && w[17] == n.indirect
            && (forall i :: 18 <= i < 128 ==> w[i] == 0)
  {
  }

  lemma HalvesAt(b: Block, hi: Half, lo: Half)
    requires WordAt(b, 1) == 0x1_0000 * (hi as int) + lo
    ensures 256 * (b[4] as int) + b[5] == hi && 256 * (b[6] as int) + b[7] == lo
  {
    var b4: int, b5: int, b6: int, b7: int := b[4], b[5], b[6], b[7];
    assert WordAt(b, 1) == 0x1_0000 * (256 * b4 + b5) + (256 * b6 + b7);
  }


  // An inode synced to its block is the inode loaded back from it.
  lemma InodeRoundTrip(n: Inode)
    ensures DecodeInode(EncodeInode(n)) == n
  {
    WordsOfBytes(InodeWords(n));
    InodeFromWords(n);
  }

  lemma InodeFromZero(w: WordBlock)
    requires forall i :: 0 <= i < 128 ==> w[i] == 0
    ensures InodeFrom(w) == ZeroInode()
  {
    assert w[2..17] == seq(15, _ => 0);
  }

  // A freshly cleared block is the empty inode.
  lemma ZeroInodeDecodes()
    ensures DecodeInode(ZeroBlock()) == ZeroInode()
  {
    WordsOfZero();
    InodeFromZero(Words(ZeroBlock()));
  }
}
