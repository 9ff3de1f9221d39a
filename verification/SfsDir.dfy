// The root directory: 64-byte slots in the bytes of a file, and the map from
// names to inode numbers they stand for.
module SfsDir {
  import opened SfsLayout
  import opened SfsBlocks
  import opened SfsBytes
  import opened Uios

  type Name = seq<Byte>

  // A C string: no NUL inside.
  predicate IsName(n: Name) {
    forall b :: b in n ==> b != 0
  }

  // ---- One slot ----

  datatype Entry = Entry(ino: Word, name: Name)

  // The string up to the first NUL.
  function CStr(b: seq<Byte>): (r: seq<Byte>)
    ensures |r| <= |b| && IsName(r)
  {
    if b == [] || b[0] == 0 then [] else [b[0]] + CStr(b[1..])
  }

  lemma {:induction false} CStrPadded(n: Name, pad: seq<Byte>)
    requires IsName(n) && (forall b :: b in pad ==> b == 0)
    ensures CStr(n + pad) == n
  {
    if n == [] {
      assert n + pad == pad;
      if pad != [] { assert pad[0] in pad; }
    } else {
      assert n[0] in n;
      assert forall b :: b in n[1..] ==> b in n;
      assert (n + pad)[1..] == n[1..] + pad;
      CStrPadded(n[1..], pad);
    }
  }

  // struct sfs_dir as written: cleared, then the inode number and the name.
  function EncodeEntry(e: Entry): (r: seq<Byte>)
    requires |e.name| < 60
    ensures |r| == 64
  {
    [ByteOf(e.ino, 0), ByteOf(e.ino, 1), ByteOf(e.ino, 2), ByteOf(e.ino, 3)] + e.name + Zeros(60 - |e.name|)
  }

  // struct sfs_dir as read: the last byte of the name is forced to NUL.
  function DecodeEntry(b: seq<Byte>): (e: Entry)
    requires |b| == 64
    ensures |e.name| < 60 && IsName(e.name)
  {
    Entry(Join(b[0], b[1], b[2], b[3]), CStr(b[4..63]))
  }

  // Where the fields of an entry lie in its slot: the inode number in four bytes, most
  // significant first, then the name, ended by a zero and filled up with them.
  lemma EntryLayout(e: Entry)
    requires |e.name| < 60
    ensures var b := EncodeEntry(e);
            && 0x100_0000 * (b[0] as int) + 0x1_0000 * (b[1] as int) + 0x100 * (b[2] as int) + b[3] == e.ino
            && b[4..4 + |e.name|] == e.name && forall i :: 4 + |e.name| <= i < 64 ==> b[i] == 0
  {
    hide ByteOf;
    WordOfBytes(e.ino);
  }


  // A directory entry survives the trip through its slot.
  lemma EntryRoundTrip(e: Entry)
    requires IsName(e.name) && |e.name| < 60
    ensures DecodeEntry(EncodeEntry(e)) == e
  {
    hide ByteOf;
    var b := EncodeEntry(e);
    assert b[4..63] == e.name + Zeros(59 - |e.name|);
    CStrPadded(e.name, Zeros(59 - |e.name|));
    WordOfBytes(e.ino);
  }

  // ---- All slots ----

  predicate DirOk(img: Img) {
    img.kind == TYPE_DIR && img.size % 64 == 0 && img.size <= 73216
  }

  function Entries(img: Img): (s: seq<Entry>)
    requires DirOk(img)
    ensures |s| == img.size / 64
    ensures forall i :: 0 <= i < |s| ==> s[i] == DecodeEntry(Slice(img.blocks, 64 * i, 64))
  {
    seq(img.size / 64, i requires 0 <= i < img.size / 64 => DecodeEntry(Slice(img.blocks, 64 * i, 64)))
  }

  // s with slot i set to e; slot |s| is the one past the end.
  function SetSlot(s: seq<Entry>, i: nat, e: Entry): seq<Entry>
    requires i <= |s|
  {
    if i < |s| then s[i := e] else s + [e]
  }

  // Overwriting 64 bytes at a slot boundary sets that slot and no other.
  lemma WriteSlotEntries(img: Img, i: nat, e: Entry)
    requires DirOk(img) && i <= img.size / 64 && i < 1144 && IsName(e.name) && |e.name| < 60
    ensures var w := WriteImg(img, 64 * i, EncodeEntry(e));
            DirOk(w) && Entries(w) == SetSlot(Entries(img), i, e)
  {
    hide EncodeEntry, DecodeEntry, Overlay, At;
    var d := EncodeEntry(e);
    var w := WriteImg(img, 64 * i, d);
    EntryRoundTrip(e);
    forall k | 0 <= k < w.size / 64
      ensures Entries(w)[k] == SetSlot(Entries(img), i, e)[k]
    {
      if k == i {
        assert Slice(w.blocks, 64 * k, 64) == d;
      } else {
        assert Slice(w.blocks, 64 * k, 64) == Slice(img.blocks, 64 * k, 64);
      }
    }
  }

  // ---- The map from names to inodes ----

  ghost predicate NamesUnique(s: seq<Entry>) {
    forall i, k :: 0 <= i < k < |s| && s[i].ino != 0 && s[k].ino != 0 ==> s[i].name != s[k].name
  }

  ghost predicate Bound(s: seq<Entry>, n: Name) {
    exists i :: 0 <= i < |s| && s[i].ino != 0 && s[i].name == n
  }

  ghost function Directory(s: seq<Entry>): (m: map<Name, nat>)
    requires NamesUnique(s)
    ensures forall n :: n in m <==> Bound(s, n)
    ensures forall i :: 0 <= i < |s| && s[i].ino != 0 ==> s[i].name in m && m[s[i].name] == s[i].ino
  {
    map i | 0 <= i < |s| && s[i].ino != 0 :: s[i].name := s[i].ino as nat
  }

  predicate Named(s: seq<Entry>, n: Name) {
    exists i :: 0 <= i < |s| && s[i].name == n
  }

  lemma {:induction false} KeyCount(s: seq<Entry>, keys: set<Name>)
    requires forall i, k :: 0 <= i < k < |s| ==> s[i].name != s[k].name
    requires forall n :: n in keys <==> Named(s, n)
    ensures |keys| == |s|
  {
    if s == [] {
      assert keys == {};
    } else {
      var t, last := s[..|s| - 1], s[|s| - 1].name;
      assert Named(s, last);
      forall n ensures n in keys - {last} <==> Named(t, n) {
        if Named(t, n) {
          var i :| 0 <= i < |t| && t[i].name == n;
          assert s[i].name == n;
        }
        if Named(s, n) && n != last {
          var i :| 0 <= i < |s| && s[i].name == n;
          assert t[i].name == n;
        }
      }
      KeyCount(t, keys - {last});
    }
  }

  // A directory without an empty slot has as many names as slots.
  lemma NamesCount(s: seq<Entry>)
    requires NamesUnique(s) && forall i :: 0 <= i < |s| ==> s[i].ino != 0
    ensures |Directory(s)| == |s|
  {
    var keys := Directory(s).Keys;
    hide Directory;
    forall n ensures n in keys <==> Named(s, n) {
      assert n in keys <==> Bound(s, n);
    }
    KeyCount(s, keys);
  }

  lemma BoundSet(s: seq<Entry>, i: nat, e: Entry, n: Name)
    requires i <= |s| && (i < |s| ==> s[i].ino == 0) && e.ino != 0
    ensures Bound(SetSlot(s, i, e), n) <==> Bound(s, n) || n == e.name
  {
    var t := SetSlot(s, i, e);
    assert t[i] == e;
    if Bound(s, n) {
      var k :| 0 <= k < |s| && s[k].ino != 0 && s[k].name == n;
      assert t[k] == s[k];
    }
  }

  // Filling an empty slot binds one name.
  lemma BindSlot(s: seq<Entry>, i: nat, e: Entry)
    requires NamesUnique(s) && i <= |s| && (i < |s| ==> s[i].ino == 0)
    requires e.ino != 0 && e.name !in Directory(s)
    ensures NamesUnique(SetSlot(s, i, e))
    ensures Directory(SetSlot(s, i, e)) == Directory(s)[e.name := e.ino]
  {
    hide Directory;
    var t := SetSlot(s, i, e);
    assert NamesUnique(t) by {
      forall k | 0 <= k < |s| && s[k].ino != 0 ensures s[k].name != e.name {
        assert s[k].name in Directory(s);
      }
    }
    var m, m' := Directory(s)[e.name := e.ino], Directory(t);
    forall n ensures n in m' <==> n in m {
      hide Bound, SetSlot;
      BoundSet(s, i, e, n);
    }
    forall n | n in m' ensures m'[n] == m[n] {
      var k :| 0 <= k < |t| && t[k].ino != 0 && t[k].name == n;
      if k != i { assert t[k] == s[k]; }
    }
  }

  lemma BoundClear(s: seq<Entry>, i: nat, e: Entry, n: Name)
    requires NamesUnique(s) && i < |s| && s[i].ino != 0 && e.ino == 0
    ensures Bound(s[i := e], n) <==> Bound(s, n) && n != s[i].name
  {
    var t := s[i := e];
    if Bound(s, n) && n != s[i].name {
      var k :| 0 <= k < |s| && s[k].ino != 0 && s[k].name == n;
      assert t[k] == s[k];
    }
    if Bound(t, n) {
      var k :| 0 <= k < |t| && t[k].ino != 0 && t[k].name == n;
      assert k != i && t[k] == s[k];
      if k < i { assert s[k].name != s[i].name; } else { assert s[i].name != s[k].name; }
    }
  }

  // Clearing a slot unbinds its name and no other.
  lemma UnbindSlot(s: seq<Entry>, i: nat, e: Entry)
    requires NamesUnique(s) && i < |s| && s[i].ino != 0 && e.ino == 0
    ensures NamesUnique(s[i := e])
    ensures Directory(s[i := e]) == Directory(s) - {s[i].name}
  {
    hide Directory;
    var t := s[i := e];
    assert NamesUnique(t);
    var m, m' := Directory(s) - {s[i].name}, Directory(t);
    forall n ensures n in m' <==> n in m {
      hide Bound;
      BoundClear(s, i, e, n);
    }
    forall n | n in m' ensures m'[n] == m[n] {
      var k :| 0 <= k < |t| && t[k].ino != 0 && t[k].name == n;
      assert k != i && t[k] == s[k];
    }
  }

  // ---- Link counts ----

  function InoSeq(s: seq<Entry>): (r: seq<nat>)
    ensures |r| == |s| && forall i :: 0 <= i < |s| ==> r[i] == s[i].ino
  {
    seq(|s|, i requires 0 <= i < |s| => s[i].ino as nat)
  }

  // The number of slots naming inode j.
  ghost function Links(s: seq<Entry>, j: nat): nat {
    multiset(InoSeq(s))[j]
  }

  lemma LinksBound(s: seq<Entry>, j: nat)
    ensures Links(s, j) <= |s|
  {
    assert |multiset(InoSeq(s))| == |s|;
    assert multiset(InoSeq(s))[j] <= |multiset(InoSeq(s))| by {
      var m := multiset(InoSeq(s));
      assert |m[j := 0]| + m[j] == |m|;
    }
  }

  lemma LinksSet(s: seq<Entry>, i: nat, e: Entry, j: nat)
    requires i <= |s|
    ensures Links(SetSlot(s, i, e), j) ==
            Links(s, j) + (if e.ino == j then 1 else 0) - (if i < |s| && s[i].ino == j then 1 else 0)
  {
    var t := SetSlot(s, i, e);
    if i < |s| {
      assert InoSeq(t) == InoSeq(s)[i := e.ino];
    } else {
      assert InoSeq(t) == InoSeq(s) + [e.ino];
    }
  }

  lemma LinksPositive(s: seq<Entry>, i: nat)
    requires i < |s|
    ensures Links(s, s[i].ino) > 0
  {
    assert InoSeq(s)[i] in multiset(InoSeq(s));
  }

  lemma LinksNone(s: seq<Entry>, j: nat)
    requires forall i :: 0 <= i < |s| ==> s[i].ino != j
    ensures Links(s, j) == 0
  {
    assert j !in InoSeq(s);
    assert j !in multiset(InoSeq(s));
  }
}
