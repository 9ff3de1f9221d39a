// Files as bytes: reading and overlaying byte ranges of a file's block map, and
// the flat byte sequence a file stands for.
module SfsBytes {
  import opened SfsLayout
  import opened SfsBlocks
  import opened SfsSteps
  import opened SfsTruncate
  import opened Uios

  function At(b: Blocks, i: nat): Byte
    requires i < 73216
  {
    b[i / 512][i % 512]
  }

  lemma SameBytes(b: Blocks, c: Blocks)
    requires forall i :: 0 <= i < 73216 ==> At(b, i) == At(c, i)
    ensures b == c
  {
    forall k | 0 <= k < 143 ensures b[k] == c[k] {
      forall o | 0 <= o < 512 ensures b[k][o] == c[k][o] {
        var i := 512 * k + o;
        assert i / 512 == k && i % 512 == o;
        assert At(b, i) == At(c, i);
      }
    }
  }

  // ---- Reading ----

  function Slice(b: Blocks, off: nat, n: nat): (r: seq<Byte>)
    requires off + n <= 73216
    ensures |r| == n && forall i :: 0 <= i < n ==> r[i] == At(b, off + i)
  {
    seq<Byte>(n, i requires 0 <= i < n => At(b, off + i))
  }

  lemma SliceInBlock(b: Blocks, k: nat, skip: nat, n: nat)
    requires k < 143 && skip + n <= 512
    ensures Slice(b, 512 * k + skip, n) == b[k][skip..skip + n]
  {
    var r := Slice(b, 512 * k + skip, n);
    forall i | 0 <= i < n ensures r[i] == b[k][skip..skip + n][i] {
      assert (512 * k + skip + i) / 512 == k;
    }
  }

  lemma SliceConcat(b: Blocks, off: nat, n: nat, m: nat)
    requires off + n + m <= 73216
    ensures Slice(b, off, n) + Slice(b, off + n, m) == Slice(b, off, n + m)
  {
  }

  // ---- Writing ----

  function OverlayBlock(blk: Block, start: nat, off: nat, d: seq<Byte>): (r: Block)
    ensures forall i :: 0 <= i < 512 ==>
              r[i] == if off <= start + i < off + |d| then d[start + i - off] else blk[i]
  {
    seq(512, i requires 0 <= i < 512 => if off <= start + i < off + |d| then d[start + i - off] else blk[i])
  }

  // The blocks with d laid over them from byte off on.
  function Overlay(b: Blocks, off: nat, d: seq<Byte>): (r: Blocks)
    ensures forall i :: 0 <= i < 73216 ==> At(r, i) == if off <= i < off + |d| then d[i - off] else At(b, i)
  {
    var r := seq<Block>(143, k requires 0 <= k < 143 => OverlayBlock(b[k], 512 * k, off, d));
    assert forall i {:trigger At(r, i)} :: 0 <= i < 73216 ==> i == 512 * (i / 512) + i % 512;
    r
  }

  lemma OverlayInBlock(b: Blocks, k: nat, skip: nat, d: seq<Byte>)
    requires k < 143 && skip + |d| <= 512
    ensures Overlay(b, 512 * k + skip, d) == b[k := Splice(b[k], skip, d)]
  {
    hide Overlay, Splice;
    var c := b[k := Splice(b[k], skip, d)];
    forall i | 0 <= i < 73216 ensures At(Overlay(b, 512 * k + skip, d), i) == At(c, i) {
      assert i == 512 * (i / 512) + i % 512;
    }
    SameBytes(Overlay(b, 512 * k + skip, d), c);
  }

  lemma OverlayTwice(b: Blocks, off: nat, d1: seq<Byte>, d2: seq<Byte>)
    ensures Overlay(Overlay(b, off, d1), off + |d1|, d2) == Overlay(b, off, d1 + d2)
  {
    hide Overlay, At;
    SameBytes(Overlay(Overlay(b, off, d1), off + |d1|, d2), Overlay(b, off, d1 + d2));
  }

  lemma OverlayNothing(b: Blocks, off: nat)
    ensures Overlay(b, off, []) == b
  {
    hide Overlay, At;
    SameBytes(Overlay(b, off, []), b);
  }

  // ---- The flat view ----

  // The file as a byte sequence as long as its size; nothing is stored past the block map.
  function Contents(img: Img): (s: seq<Byte>)
    ensures |s| == img.size
    ensures forall i :: 0 <= i < img.size ==> s[i] == if i < 73216 then At(img.blocks, i) else 0
  {
    seq<Byte>(img.size, i requires 0 <= i < img.size => if i < 73216 then At(img.blocks, i) else 0)
  }

  // Nothing but zeros is stored past the end of the file.
  predicate ZeroTail(img: Img) {
    forall i :: img.size <= i < 73216 ==> At(img.blocks, i) == 0
  }

  function Max(a: nat, b: nat): nat {
    if a < b then b else a
  }

  function Min(a: nat, b: nat): nat {
    if a < b then a else b
  }

  // What sfs_io leaves behind when it wrote d at off, completely or in part.
  function WriteImg(img: Img, off: nat, d: seq<Byte>): Img
    requires off + |d| <= OFF_MAX
  {
    img.(blocks := Overlay(img.blocks, off, d), size := Max(img.size, off + |d|))
  }

  // The same on flat sequences: grow with zeros up to the write, then replace.
  function FlatWrite(s: seq<Byte>, off: nat, d: seq<Byte>): (r: seq<Byte>)
    ensures |r| == Max(|s|, off + |d|)
    ensures forall i :: 0 <= i < |r| ==>
              r[i] == if off <= i < off + |d| then d[i - off] else if i < |s| then s[i] else 0
  {
    seq<Byte>(Max(|s|, off + |d|), i requires 0 <= i < Max(|s|, off + |d|) =>
      if off <= i < off + |d| then d[i - off] else if i < |s| then s[i] else 0)
  }

  // A write within the block map is a flat overlay, any gap reading as zeros,
  // provided the file stored only zeros past its end; and it keeps that so.
  lemma WriteIsFlat(img: Img, off: nat, d: seq<Byte>)
    requires ZeroTail(img) && off + |d| <= OFF_MAX && (|d| > 0 ==> off + |d| <= 73216)
    ensures Contents(WriteImg(img, off, d)) == FlatWrite(Contents(img), off, d)
    ensures ZeroTail(WriteImg(img, off, d))
  {
    hide Overlay, At;
    var w := WriteImg(img, off, d);
    forall i | 0 <= i < w.size
      ensures Contents(w)[i] == FlatWrite(Contents(img), off, d)[i]
    {
      if i < 73216 {
        assert At(w.blocks, i) == if off <= i < off + |d| then d[i - off] else At(img.blocks, i);
      }
    }
  }

  // ---- Truncation, in bytes ----

  // One past the last byte position that truncation to len leaves in place.
  function KeptEnd(len: nat): nat {
    if BlockLen(len) < 15 then 512 * BlockLen(len)
    else if BlockLen(len) < 143 then 512 * (BlockLen(len) + 1)
    else 73216
  }

  lemma KeptBytes(len: nat, i: nat)
    requires i < 73216
    ensures Kept(i / 512, BlockLen(len)) <==> i < KeptEnd(len)
    ensures i < len ==> i < KeptEnd(len)
  {
  }

  lemma TruncateAt(img: Img, len: Word, i: nat)
    requires i < 73216
    ensures At(TruncateImg(img, len).blocks, i) == if i < KeptEnd(len) then At(img.blocks, i) else 0
  {
    hide BlockLen, Kept, KeptEnd;
    KeptBytes(len, i);
  }

  // sfs_truncate keeps every byte below both the old size and the new.
  lemma TruncateKeepsPrefix(img: Img, len: Word)
    ensures |Contents(TruncateImg(img, len))| == len
    ensures forall i :: 0 <= i < Min(img.size, len) ==> Contents(TruncateImg(img, len))[i] == Contents(img)[i]
  {
    hide BlockLen, Kept, KeptEnd, At;
    forall i | 0 <= i < Min(img.size, len)
      ensures Contents(TruncateImg(img, len))[i] == Contents(img)[i]
    {
      if i < 73216 {
        TruncateAt(img, len, i);
        KeptBytes(len, i);
      }
    }
  }

  // The bytes a cut to len leaves behind past the new end of file.
  predicate CleanCut(img: Img, len: nat) {
    forall i :: len <= i < img.size && i < KeptEnd(len) && i < 73216 ==> Contents(img)[i] == 0
  }

  // Truncation leaves only zeros past the new end exactly when the bytes it cuts
  // off, in the blocks it does not free, were zeros already.
  lemma TruncateTail(img: Img, len: Word)
    requires ZeroTail(img)
    ensures ZeroTail(TruncateImg(img, len)) <==> CleanCut(img, len)
  {
    hide BlockLen, Kept, KeptEnd, At;
    var t := TruncateImg(img, len);
    forall i | 0 <= i < 73216
      ensures At(t.blocks, i) == if i < KeptEnd(len) then At(img.blocks, i) else 0
    {
      TruncateAt(img, len, i);
    }
    if ZeroTail(t) {
      forall i | len <= i < img.size && i < KeptEnd(len) && i < 73216 ensures Contents(img)[i] == 0 {
        assert At(t.blocks, i) == 0;
      }
    }
    if CleanCut(img, len) {
      forall i | t.size <= i < 73216 ensures At(t.blocks, i) == 0 {
        if i < img.size && i < KeptEnd(len) { assert Contents(img)[i] == 0; }
      }
    }
  }

  // The callers in this kernel truncate to 0, which is always clean.
  lemma TruncateToZero(img: Img)
    ensures CleanCut(img, 0) && Contents(TruncateImg(img, 0)) == []
    ensures TruncateImg(img, 0).blocks == EmptyImg(img.kind).blocks
  {
  }

  // Every write to a file is a flat overlay exactly when the file stores only
  // zeros past its end: writing one byte past a stored one brings it back.
  lemma FlatIffZeroTail(img: Img)
    ensures ZeroTail(img) <==>
            forall off: nat, d: seq<Byte> | off + |d| <= 73216 ::
              Contents(WriteImg(img, off, d)) == FlatWrite(Contents(img), off, d)
  {
    if ZeroTail(img) {
      forall off: nat, d: seq<Byte> | off + |d| <= 73216
        ensures Contents(WriteImg(img, off, d)) == FlatWrite(Contents(img), off, d)
      {
        WriteIsFlat(img, off, d);
      }
    } else {
      hide Overlay, At;
      var i: nat :| img.size <= i < 73216 && At(img.blocks, i) != 0;
      var w := WriteImg(img, i + 1, []);
      assert At(w.blocks, i) != 0;
      assert Contents(w)[i] != FlatWrite(Contents(img), i + 1, [])[i];
    }
  }

  // A concrete case: cut "7 7" to one byte, write past it, and the second 7 is back.
  lemma StaleByteReturns()
    ensures var img := WriteImg(EmptyImg(TYPE_FILE), 0, [7, 7]);
            var cut := TruncateImg(img, 1);
            && Contents(cut) == [7]
            && Contents(WriteImg(cut, 2, [1])) == [7, 7, 1]
            && FlatWrite(Contents(cut), 2, [1]) == [7, 0, 1]
  {
    var img := WriteImg(EmptyImg(TYPE_FILE), 0, [7, 7]);
    var cut := TruncateImg(img, 1);
    hide Overlay;
    TruncateAt(img, 1, 0);
    TruncateAt(img, 1, 1);
    hide At, TruncateImg;
    assert Contents(cut)[0] == 7;
    var w := WriteImg(cut, 2, [1]);
    assert At(w.blocks, 0) == 7 && At(w.blocks, 1) == 7 && At(w.blocks, 2) == 1;
  }
}
