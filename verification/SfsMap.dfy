// The freemap on disk: the blocks after the root inode hold its bytes.
module SfsMap {
  import opened SfsLayout
  import opened SfsBlocks
  import opened Bitmaps

  function ToByte(w: bv8): (b: Byte)
    ensures 0 <= b < 256
  {
    w as int
  }

  function FromByte(b: Byte): bv8 {
    b as bv8
  }

  lemma ByteRoundTrip(w: bv8)
    ensures FromByte(ToByte(w)) == w
  {
  }

  // The bytes in nb blocks of freemap.
  function MapBytes(d: seq<Block>, nb: nat): (s: seq<bv8>)
    requires 2 + nb <= |d|
    ensures |s| == 512 * nb
    ensures forall i :: 0 <= i < |s| ==> s[i] == FromByte(d[2 + i / 512][i % 512])
  {
    seq(512 * nb, i requires 0 <= i < 512 * nb => FromByte(d[2 + i / 512][i % 512]))
  }

  function AsBlock(t: seq<bv8>): (b: Block)
    requires |t| == 512
    ensures forall i :: 0 <= i < 512 ==> b[i] == ToByte(t[i])
  {
    seq(512, i requires 0 <= i < 512 => ToByte(t[i]))
  }

  function MapBlock(s: seq<bv8>, j: nat): (b: Block)
    requires 512 * j + 512 <= |s|
    ensures forall i :: 0 <= i < 512 ==> b[i] == ToByte(s[512 * j + i])
  {
    AsBlock(s[512 * j..512 * j + 512])
  }

  // d with its first k blocks of freemap from s.
  function PutMap(d: seq<Block>, s: seq<bv8>, k: nat): (r: seq<Block>)
    requires 512 * k <= |s|
    ensures |r| == |d|
    ensures forall b :: 0 <= b < |d| ==> r[b] == if 2 <= b < 2 + k then MapBlock(s, b - 2) else d[b]
  {
    seq(|d|, b requires 0 <= b < |d| => if 2 <= b < 2 + k then MapBlock(s, b - 2) else d[b])
  }

  // What is written is what is read.
  lemma MapRoundTrip(d: seq<Block>, s: seq<bv8>, nb: nat)
    requires |s| == 512 * nb && 2 + nb <= |d|
    ensures MapBytes(PutMap(d, s, nb), nb) == s
  {
    var r := PutMap(d, s, nb);
    var t := MapBytes(r, nb);
    hide MapBytes, PutMap, MapBlock, FromByte, ToByte;
    forall i | 0 <= i < 512 * nb ensures t[i] == s[i] {
      ByteRoundTrip(s[i]);
      assert 512 * (i / 512) + i % 512 == i && i / 512 < nb;
      assert r[2 + i / 512] == MapBlock(s, i / 512);
    }
  }

  // The blocks in use according to the freemap on disk.
  ghost function MapOnDisk(d: seq<Block>, n: nat): set<nat>
    requires 2 + BitBlocks(n) <= |d|
  {
    BitsOf(MapBytes(d, BitBlocks(n)), MapSize(n))
  }

  // sfs_mapio, reading.
  method LoadMap(fm: Bitmap, d: seq<Block>, nb: nat)
    requires fm.v.Length == 512 * nb && 2 + nb <= |d|
    modifies fm.v
    ensures fm.v[..] == MapBytes(d, nb)
  {
    hide FromByte;
    for j := 0 to nb
      invariant forall i :: 0 <= i < 512 * j ==> fm.v[i] == MapBytes(d, nb)[i]
    {
      hide MapBytes;
      // sfs_rblock
      for k := 0 to 512
        invariant forall i :: 0 <= i < 512 * j + k ==> fm.v[i] == MapBytes(d, nb)[i]
      {
        assert (512 * j + k) / 512 == j && (512 * j + k) % 512 == k;
        fm.v[512 * j + k] := FromByte(d[2 + j][k]);
      }
    }
  }

  // sfs_mapio, writing.
  method SaveMap(fm: Bitmap, d: seq<Block>, nb: nat) returns (r: seq<Block>)
    requires fm.v.Length == 512 * nb && 2 + nb <= |d|
    ensures r == PutMap(d, fm.v[..], nb)
  {
    r := d;
    assert r == PutMap(d, fm.v[..], 0);
    for j := 0 to nb
      invariant r == PutMap(d, fm.v[..], j)
    {
      hide MapBlock;
      r := r[2 + j := MapBlock(fm.v[..], j)];
      assert r == PutMap(d, fm.v[..], j + 1);
    }
  }

  lemma MapLength(n: nat)
    ensures (MapSize(n) + 7) / 8 == 512 * BitBlocks(n) && MapSize(n) == 8 * (512 * BitBlocks(n))
  {
    hide BitBlocks;
  }
}
