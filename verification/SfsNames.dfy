// The operations on names: creat, link, lookup, remove and rename.
module SfsNames {
  import opened SfsLayout
  import opened SfsBlocks
  import opened SfsSteps
  import opened SfsBytes
  import opened SfsCore
  import opened SfsIo
  import opened SfsDir
  import opened SfsDirOps
  import opened SfsVnodeOps
  import opened SfsTree
  import opened SfsSpace
  import opened Bitmaps

  // A mounted filesystem between operations, with the root directory in hand.
  ghost predicate Ready(sfs: SfsFs)
    reads sfs, sfs.freemap.v
  {
    && sfs.Valid() && sfs.Settled()
    && TreeOk(sfs.Files(), sfs.Counts()) && 1 in sfs.Counts()
    && SlotsMapped(sfs.Files(), sfs.owner)
  }

  ghost function NamesOf(sfs: SfsFs): map<Name, nat>
    reads sfs
  {
    Names(sfs.Files())
  }

  lemma SlotSetWritten(f: Files, i: nat, e: Entry)
    requires 1 in f && DirOk(f[1]) && i <= |Entries(f[1])| && i < 1144 && IsName(e.name) && |e.name| < 60
    ensures SlotSet(f, f[1 := WriteImg(f[1], 64 * i, EncodeEntry(e))], i, e)
  {
    hide EncodeEntry, Entries, Overlay;
    WriteSlotEntries(f[1], i, e);
  }

  // How sfs_dir_link of a name fails: m is the directory, full says that no block is free.
  // A block is needed only if every slot of every block of the directory is in use.
  ghost predicate LinkErr(e: Err, m: map<Name, nat>, name: Name, full: bool) {
    && (e == EEXIST <==> name in m)
    && (e == ENAMETOOLONG <==> name !in m && |name| >= 60)
    && (e == ENOSPC ==> full && |m| % 8 == 0) && (e == EINVAL ==> |m| == 1144)
    && (e == Ok || e == EEXIST || e == ENAMETOOLONG || e == ENOSPC || e == EINVAL)
  }

  // The first half of sfs_dir_link: the checks, and the slot to use.
  method ChooseSlot(sfs: SfsFs, name: Name) returns (e: Err, slot: nat)
    requires Ready(sfs) && IsName(name)
    modifies sfs`disk, sfs`vnodes, sfs`owner, sfs.freemap.v
    ensures sfs.Valid() && sfs.Settled() && sfs.Counts() == old(sfs.Counts()) && sfs.Files() == old(sfs.Files())
    ensures e == if name in NamesOf(sfs) then EEXIST else if |name| >= 60 then ENAMETOOLONG else Ok
    ensures RootReady(sfs.Files(), sfs.Counts())
    ensures e == Ok ==> ForEntry(Entries(sfs.Files()[1]), slot)
    ensures e == Ok && slot == |Entries(sfs.Files()[1])| ==> |NamesOf(sfs)| == slot
    ensures sfs.owner == old(sfs.owner)
  {
    hide SfsFs.Valid, SfsFs.Files, SfsFs.Counts, SfsFs.Settled, Directory, Entries, TreeOk, Names, NamesUnique;
    ghost var f := sfs.Files();
    TreeFacts(f, sfs.Counts());
    var ino, used, emptyslot;
    e, ino, used, emptyslot := FindName(sfs, name);
    if e == Ok {
      return EEXIST, 0;
    }
    if |name| + 1 > 60 {
      return ENAMETOOLONG, 0;
    }
    if emptyslot < 0 {
      NamesCount(Entries(f[1]));
      emptyslot := SlotCount(sfs);
    }
    return Ok, emptyslot;
  }

  // The slot a new entry goes to: the last empty one, or a new one if none is empty.
  predicate ForEntry(s: seq<Entry>, slot: nat) {
    && slot <= |s| && (slot < |s| ==> s[slot].ino == 0)
    && (forall i :: 0 <= i < |s| && (slot < i || slot == |s|) ==> s[i].ino != 0)
  }

  // sfs_dir_link
  method DirLink(sfs: SfsFs, name: Name, ino: Word) returns (e: Err, slot: nat)
    requires Ready(sfs) && IsName(name) && ino != 0
    modifies sfs`disk, sfs`vnodes, sfs`owner, sfs.freemap.v
    ensures sfs.Valid() && sfs.Settled() && sfs.Counts() == old(sfs.Counts())
    ensures LinkErr(e, old(NamesOf(sfs)), name, Full(sfs.nblocks, sfs.owner))
    ensures 1 in old(sfs.Files()) && DirOk(old(sfs.Files())[1])
    ensures e != Ok ==> sfs.Files() == old(sfs.Files())
    ensures e == Ok ==> name !in old(NamesOf(sfs))
    ensures e == Ok ==> SlotSet(old(sfs.Files()), sfs.Files(), slot, Entry(ino, name))
    ensures e == Ok ==> ForEntry(Entries(old(sfs.Files())[1]), slot)
    ensures SlotsMapped(sfs.Files(), sfs.owner)
  {
    hide SfsFs.Valid, SfsFs.Files, SfsFs.Counts, SfsFs.Settled, Entries, WriteImg, EncodeEntry, TreeOk, Names, SlotSet,
      SlotsMapped, Grown;
    ghost var f, o := sfs.Files(), sfs.owner;
    e, slot := ChooseSlot(sfs, name);
    if e != Ok {
      return;
    }
    e := WriteSlot(sfs, slot, Entry(ino, name));
    GrownKeepsRoot(o, sfs.owner, 1, slot / 8, slot / 8 + 1);
    if e == Ok {
      SlotSetWritten(f, slot, Entry(ino, name));
      LinkedMapped(sfs, f, o, slot, Entry(ino, name));
    } else {
      SlotsStayMapped(f, o, f, sfs.owner);
    }
  }

  lemma LinkedMapped(sfs: SfsFs, f: Files, o: Owner, slot: nat, e: Entry)
    requires sfs.Valid() && 1 in sfs.Counts() && SlotsMapped(f, o) && RootKept(o, sfs.owner)
    requires SlotSet(f, sfs.Files(), slot, e) && e.ino != 0
    ensures SlotsMapped(sfs.Files(), sfs.owner)
  {
    hide Inv, Images, Bitmap.Bits, Bitmap.Valid, RootHas, RootKept, DecodeEntry, SlotsMapped;
    SlotSizes(f, sfs.Files(), slot, e);
    EntryKeepsMapped(f, o, sfs.View(), sfs.owner, slot);
  }

  lemma SlotSizes(f: Files, g: Files, slot: nat, e: Entry)
    requires SlotSet(f, g, slot, e)
    ensures g[1].size == (if slot < |Entries(f[1])| then f[1].size else 64 * slot + 64) && slot < g[1].size / 64
    ensures slot == |Entries(f[1])| ==> f[1].size == 64 * slot
    ensures Entries(g[1])[slot] == e
  {
    hide DecodeEntry;
    assert |Entries(f[1])| == f[1].size / 64 && |Entries(g[1])| == g[1].size / 64;
  }

  // sfs_dir_unlink of a slot in use: this write cannot fail.
  method DirUnlink(sfs: SfsFs, slot: nat) returns (e: Err)
    requires Ready(sfs)
    requires 1 in sfs.Files() && DirOk(sfs.Files()[1])
    requires slot < |Entries(sfs.Files()[1])| && Entries(sfs.Files()[1])[slot].ino != 0
    modifies sfs`disk, sfs`vnodes, sfs`owner, sfs.freemap.v
    ensures sfs.Valid() && sfs.Settled() && sfs.Counts() == old(sfs.Counts())
    ensures e == Ok && SlotSet(old(sfs.Files()), sfs.Files(), slot, Entry(0, []))
    ensures SlotsMapped(sfs.Files(), sfs.owner)
  {
    hide SfsFs.Valid, SfsFs.Files, SfsFs.Counts, SfsFs.Settled, Entries, WriteImg, EncodeEntry, TreeOk, SlotSet,
      SlotsMapped, Grown;
    ghost var f, o := sfs.Files(), sfs.owner;
    EntryCount(f);
    e := WriteSlot(sfs, slot, Entry(0, []));
    SlotSetWritten(f, slot, Entry(0, []));
    SlotSizes(f, sfs.Files(), slot, Entry(0, []));
    GrownKeepsRoot(o, sfs.owner, 1, slot / 8, slot / 8 + 1);
    SlotsStayMapped(f, o, sfs.Files(), sfs.owner);
  }

  lemma EntryCount(f: Files)
    requires 1 in f && DirOk(f[1])
    ensures |Entries(f[1])| == f[1].size / 64 <= 1144
  {
    hide DecodeEntry;
  }

  // linkcount++ or linkcount-- on a loaded vnode.
  method SetLinks(sfs: SfsFs, j: nat, n: Half)
    requires sfs.Valid() && sfs.Settled() && j in sfs.Counts()
    modifies sfs`vnodes
    ensures sfs.Valid() && sfs.Settled() && sfs.Counts() == old(sfs.Counts())
    ensures j in old(sfs.Files()) && sfs.Files() == Relinked(old(sfs.Files()), j, n)
    ensures SlotsMapped(old(sfs.Files()), sfs.owner) ==> SlotsMapped(sfs.Files(), sfs.owner)
  {
    hide Inv, Images, Bitmap.Bits, Bitmap.Valid, NoFresh, RootHas;
    ImageOf(sfs.View(), sfs.owner, j);
    SetInode(sfs, j, sfs.vnodes[j].inode.(links := n));
  }

  lemma NewMapped(f: Files, o: Owner, ino: nat, img: Img)
    requires SlotsMapped(f, o) && ino !in f && ino !in o
    ensures SlotsMapped(f[ino := img], o[ino := InodeBlk])
  {
    hide RootHas, SlotsMapped;
    assert 1 in f by { RootListed(f, o); }
    SlotsStayMapped(f, o, f[ino := img], o[ino := InodeBlk]);
  }

  lemma RootListed(f: Files, o: Owner)
    requires SlotsMapped(f, o)
    ensures 1 in f
  {
  }

  // Giving up a reference takes no block from the directory.
  lemma DropMapped(f: Files, c: Counts, o: Owner, o': Owner, j: nat)
    requires SlotsMapped(f, o) && j in c && j in f && Live(o, j) && (j == 1 ==> o' == o && f[1].links > 0)
    requires forall b: nat :: b in o' ==> Has(o, b, o'[b])
    requires forall b: nat :: b in o && b !in o' ==> b == j || FileOf(o[b], j)
    ensures SlotsMapped(FilesAfterDrop(f, c, j), o')
  {
    hide RootHas, SlotsMapped, RootKept;
    RootListed(f, o);
    DropKeepsRoot(o, o', j);
    SlotsStayMapped(f, o, FilesAfterDrop(f, c, j), o');
  }

  // Decref on a filesystem in order.
  method GiveUp(sfs: SfsFs, j: nat)
    requires Ready(sfs) && j in sfs.Counts()
    requires CountsAfterDrop(sfs.Counts(), j).Keys >= {1}
    modifies sfs`disk, sfs`vnodes, sfs`owner, sfs.freemap.v
    ensures Ready(sfs) && j in old(sfs.Files()) && j in old(sfs.Counts()) && old(sfs.Counts())[j] > 0
    ensures sfs.Files() == FilesAfterDrop(old(sfs.Files()), old(sfs.Counts()), j) && NamesOf(sfs) == old(NamesOf(sfs))
    ensures sfs.Counts() == CountsAfterDrop(old(sfs.Counts()), j)
    ensures old(sfs.Files())[j].links > 0 ==> sfs.owner == old(sfs.owner)
  {
    hide TreeOk, Names, SfsFs.Valid, SfsFs.Files, SfsFs.Counts, SfsFs.Settled, SlotsMapped;
    ghost var f, c, o := sfs.Files(), sfs.Counts(), sfs.owner;
    TreeFacts(f, c);
    LiveFile(sfs, j);
    DropKeepsTree(f, c, j);
    Decref(sfs, j);
    DropMapped(f, c, o, sfs.owner, j);
  }

  lemma LiveFile(sfs: SfsFs, j: nat)
    requires j in sfs.Files()
    ensures Live(sfs.owner, j)
  {
  }

  // The link count a loaded vnode carries is the file's.
  method GetLinks(sfs: SfsFs, j: nat) returns (n: Half)
    requires sfs.Valid() && j in sfs.Counts()
    ensures j in sfs.Files() && n == sfs.Files()[j].links
  {
    hide Inv, Images, Bitmap.Bits, Bitmap.Valid;
    ImageOf(sfs.View(), sfs.owner, j);
    n := sfs.vnodes[j].inode.links;
  }

  method GetKind(sfs: SfsFs, j: nat) returns (k: Half)
    requires sfs.Valid() && j in sfs.Counts()
    ensures j in sfs.Files() && k == sfs.Files()[j].kind
  {
    hide Inv, Images, Bitmap.Bits, Bitmap.Valid;
    ImageOf(sfs.View(), sfs.owner, j);
    k := sfs.vnodes[j].inode.kind;
  }

  // Everything but the root directory's own blocks and size.
  ghost predicate SameButRoot(f: Files, g: Files) {
    && 1 in f && 1 in g && f - {1} == g - {1}
    && g[1].kind == f[1].kind && g[1].links == f[1].links
  }

  // An empty slot was filled with e, and no other slot changed.
  ghost predicate SlotFilled(f: Files, g: Files, slot: nat, e: Entry) {
    && 1 in f && DirOk(f[1]) && 1 in g && DirOk(g[1])
    && slot <= |Entries(f[1])| && Entries(g[1]) == SetSlot(Entries(f[1]), slot, e)
    && (slot < |Entries(f[1])| ==> Entries(f[1])[slot].ino == 0)
  }

  // DirLink followed by the link count: the tree with one more binding.
  method BindName(sfs: SfsFs, name: Name, ino: Word) returns (e: Err, slot: nat)
    requires Ready(sfs) && IsName(name) && ino != 0 && ino in sfs.Counts()
    modifies sfs`disk, sfs`vnodes, sfs`owner, sfs.freemap.v
    ensures Ready(sfs) && sfs.Counts() == old(sfs.Counts())
    ensures LinkErr(e, old(NamesOf(sfs)), name, Full(sfs.nblocks, sfs.owner))
    ensures e != Ok ==> sfs.Files() == old(sfs.Files())
    ensures e == Ok ==> name !in old(NamesOf(sfs)) && NamesOf(sfs) == old(NamesOf(sfs))[name := ino]
    ensures e == Ok ==> Bumped(old(sfs.Files()), sfs.Files(), ino)
    ensures e == Ok ==> SlotFilled(old(sfs.Files()), sfs.Files(), slot, Entry(ino, name))
  {
    hide Directory, Entries, TreeOk, Names, SlotSet, Bumped, SfsFs.Valid, SfsFs.Files, SfsFs.Counts, SfsFs.Settled,
      Relinked, SlotFilled, LinkErr, Full, SlotsMapped, ForEntry;
    ghost var f, c := sfs.Files(), sfs.Counts();
    TreeFacts(f, c);
    e, slot := DirLink(sfs, name, ino);
    if e != Ok {
      return;
    }
    ghost var f1 := sfs.Files();
    SlotSetFacts(f, f1, slot, Entry(ino, name));
    LinkCount(f, c, ino);
    var n := GetLinks(sfs, ino);
    SetLinks(sfs, ino, n + 1);
    SlotWasEmpty(Entries(f[1]), slot);
    LinkKeepsTree(f, c, f1, slot, Entry(ino, name));
    BumpedBy(f, f1, slot, Entry(ino, name));
    assert SlotFilled(f, sfs.Files(), slot, Entry(ino, name));
  }

  lemma SlotWasEmpty(s: seq<Entry>, slot: nat)
    requires ForEntry(s, slot)
    ensures slot < |s| ==> s[slot].ino == 0
  {
  }

  // One more link on ino; otherwise only the root directory's contents changed.
  ghost predicate Bumped(f: Files, g: Files, ino: nat) {
    ino in f && f[ino].links < 65535 && SameButRoot(Relinked(f, ino, f[ino].links + 1), g)
  }

  lemma BumpedBy(f: Files, f1: Files, i: nat, e: Entry)
    requires SlotSet(f, f1, i, e) && e.ino in f && f[e.ino].links < 65535
    ensures Bumped(f, Relinked(f1, e.ino, f1[e.ino].links + 1), e.ino)
    ensures (i < |Entries(f[1])| ==> Entries(f[1])[i].ino == 0) ==>
              SlotFilled(f, Relinked(f1, e.ino, f1[e.ino].links + 1), i, e)
  {
    hide Entries, SetSlot;
    RelinkedRoot(f1, e.ino, f1[e.ino].links + 1);
    var g := Relinked(f1, e.ino, f1[e.ino].links + 1);
    var h := Relinked(f, e.ino, f[e.ino].links + 1);
    assert h - {1} == g - {1};
  }

  // ---- The operations ----

  lemma InodeNumbers(fs: Fs, owner: Owner)
    requires Inv(fs, owner)
    ensures forall j :: j in Images(fs, owner) ==> j < 0x1_0000_0000
  {
    hide Inv, Image;
    DiskFacts(fs, owner);
    forall j | j in Images(fs, owner) ensures j < 0x1_0000_0000 {
      InodeOnDisk(fs, owner, j);
    }
  }

  method CheckNumber(sfs: SfsFs, j: nat)
    requires sfs.Valid() && j in sfs.Files()
    ensures j < 0x1_0000_0000
  {
    hide Inv, Images;
    InodeNumbers(sfs.View(), sfs.owner);
  }

  // sfs_dir_findname on a filesystem in order.
  method FindFile(sfs: SfsFs, name: Name) returns (e: Err, ino: nat, slot: nat)
    requires Ready(sfs) && IsName(name)
    modifies sfs`disk, sfs`vnodes, sfs`owner, sfs.freemap.v
    ensures Ready(sfs) && sfs.Files() == old(sfs.Files()) && sfs.Counts() == old(sfs.Counts())
    ensures e == if name in NamesOf(sfs) then Ok else ENOENT
    ensures 1 in sfs.Files() && DirOk(sfs.Files()[1])
    ensures e == Ok ==> ino == NamesOf(sfs)[name] && ino in sfs.Files() && sfs.Files()[ino].links > 0
    ensures e == Ok ==> sfs.Files()[ino].kind == TYPE_FILE || sfs.Files()[ino].kind == TYPE_DIR
    ensures e == Ok ==> slot < |Entries(sfs.Files()[1])| && Entries(sfs.Files()[1])[slot].name == name
    ensures e == Ok ==> 0 != Entries(sfs.Files()[1])[slot].ino == ino
  {
    hide Directory, Entries, TreeOk, Names, SfsFs.Valid, SfsFs.Files, SfsFs.Counts, SfsFs.Settled, SlotsMapped, NamesUnique;
    TreeFacts(sfs.Files(), sfs.Counts());
    var empty;
    e, ino, slot, empty := FindName(sfs, name);
  }

  // sfs_lookonce: one more reference to the file the name is bound to.
  method LookOnce(sfs: SfsFs, name: Name) returns (e: Err, ino: nat, slot: nat)
    requires Ready(sfs) && IsName(name)
    modifies sfs`disk, sfs`vnodes, sfs`owner, sfs.freemap.v
    ensures Ready(sfs) && sfs.Files() == old(sfs.Files())
    ensures e == Ok || e == ENOENT
    ensures e == Ok <==> name in old(NamesOf(sfs))
    ensures e == ENOENT ==> sfs.Counts() == old(sfs.Counts())
    ensures e == Ok ==> ino == old(NamesOf(sfs))[name] && sfs.Counts() == Incremented(old(sfs.Counts()), ino)
    ensures e == Ok ==> 1 in sfs.Files() && DirOk(sfs.Files()[1]) && slot < |Entries(sfs.Files()[1])|
    ensures e == Ok ==> 0 != Entries(sfs.Files()[1])[slot].ino == ino && Entries(sfs.Files()[1])[slot].name == name
  {
    hide Entries, TreeOk, Names, SfsFs.Valid, SfsFs.Files, SfsFs.Counts, SfsFs.Settled, SlotsMapped;
    ghost var f, c := sfs.Files(), sfs.Counts();
    e, ino, slot := FindFile(sfs, name);
    if e != Ok {
      return;
    }
    LoadVnode(sfs, ino);
    IncrementKeepsTree(f, c, ino);
    var n := GetLinks(sfs, ino);
    // "Link count of file found in dir is 0"
    assert n != 0;
  }

  // sfs_lookup
  method Lookup(sfs: SfsFs, name: Name) returns (e: Err, ino: nat)
    requires Ready(sfs) && IsName(name)
    modifies sfs`disk, sfs`vnodes, sfs`owner, sfs.freemap.v
    ensures Ready(sfs) && sfs.Files() == old(sfs.Files())
    ensures e == Ok <==> name in old(NamesOf(sfs))
    ensures e != Ok ==> e == ENOENT && sfs.Counts() == old(sfs.Counts())
    ensures e == Ok ==> ino == old(NamesOf(sfs))[name] && sfs.Counts() == Incremented(old(sfs.Counts()), ino)
  {
    hide Directory, Entries, TreeOk, Names, SfsFs.Valid, SfsFs.Files, SfsFs.Counts, SfsFs.Settled, SlotsMapped;
    var slot;
    e, ino, slot := LookOnce(sfs, name);
  }

  // sfs_link: one more name for a file in hand, or nothing changed at all.
  method Link(sfs: SfsFs, name: Name, j: nat) returns (e: Err)
    requires Ready(sfs) && IsName(name) && j in sfs.Counts()
    modifies sfs`disk, sfs`vnodes, sfs`owner, sfs.freemap.v
    ensures Ready(sfs) && sfs.Counts() == old(sfs.Counts())
    ensures LinkErr(e, old(NamesOf(sfs)), name, Full(sfs.nblocks, sfs.owner))
    ensures e != Ok ==> sfs.Files() == old(sfs.Files())
    ensures e == Ok ==> NamesOf(sfs) == old(NamesOf(sfs))[name := j] && Bumped(old(sfs.Files()), sfs.Files(), j)
  {
    hide Directory, Entries, TreeOk, Names, SfsFs.Valid, SfsFs.Files, SfsFs.Counts, SfsFs.Settled, SlotsMapped, Bumped, SlotFilled, LinkErr, Full;
    TreeFacts(sfs.Files(), sfs.Counts());
    CheckNumber(sfs, j);
    var slot;
    e, slot := BindName(sfs, name, j);
  }

  function NewFile(): Img {
    EmptyImg(TYPE_FILE).(links := 1)
  }

  // How sfs_creat of a new name fails: no block for the inode, or none for the entry.
  ghost predicate CreatErr(e: Err, m: map<Name, nat>, name: Name, n: nat, files: nat) {
    && (e == ENOSPC ==> Crowded(n, files) || (Crowded(n, files + 1) && |m| % 8 == 0))
    && (e == EINVAL ==> |m| == 1144) && (e == ENAMETOOLONG ==> |name| >= 60)
    && (|name| >= 60 ==> e == ENAMETOOLONG || e == ENOSPC)
    && (e == Ok || e == ENAMETOOLONG || e == ENOSPC || e == EINVAL)
  }

  // sfs_makeobj on a filesystem in order.
  method NewObject(sfs: SfsFs) returns (e: Err, ino: nat)
    requires Ready(sfs)
    modifies sfs`disk, sfs`vnodes, sfs`owner, sfs.freemap.v
    ensures Ready(sfs) && NamesOf(sfs) == old(NamesOf(sfs)) && (e == Ok || e == ENOSPC)
    ensures e == Ok ==> ino !in old(sfs.Files()) && ino !in old(sfs.Counts()) && 1 != ino && 0 < ino < 0x1_0000_0000
    ensures e == Ok ==> sfs.Files() == old(sfs.Files())[ino := EmptyImg(TYPE_FILE)] && sfs.Counts() == old(sfs.Counts())[ino := 1]
    ensures e != Ok ==> sfs.Files() == old(sfs.Files()) && sfs.Counts() == old(sfs.Counts())
    ensures e != Ok ==> Crowded(sfs.nblocks, |sfs.Files()|)
  {
    hide TreeOk, Names, SfsFs.Valid, SfsFs.Files, SfsFs.Counts, SfsFs.Settled, EmptyImg, Crowded, SlotsMapped;
    ghost var f, c, o := sfs.Files(), sfs.Counts(), sfs.owner;
    TreeFacts(f, c);
    e, ino := MakeObj(sfs, TYPE_FILE);
    if e != Ok {
      NoRoom(sfs);
      return;
    }
    NewObjectKeepsTree(f, c, ino);
    NewMapped(f, o, ino, EmptyImg(TYPE_FILE));
  }

  // The second half of sfs_creat: a new object, linked under the name or given up again.
  method CreateNew(sfs: SfsFs, name: Name) returns (e: Err, ino: nat)
    requires Ready(sfs) && IsName(name) && name !in NamesOf(sfs)
    modifies sfs`disk, sfs`vnodes, sfs`owner, sfs.freemap.v
    ensures Ready(sfs)
    ensures e != Ok ==> sfs.Files() == old(sfs.Files()) && sfs.Counts() == old(sfs.Counts())
    ensures e == Ok ==>
              && ino !in old(sfs.Files()) && SameButRoot(old(sfs.Files())[ino := NewFile()], sfs.Files())
              && NamesOf(sfs) == old(NamesOf(sfs))[name := ino] && sfs.Counts() == old(sfs.Counts())[ino := 1]
    ensures CreatErr(e, old(NamesOf(sfs)), name, sfs.nblocks, |old(sfs.Files())|)
  {
    hide TreeOk, Names, SfsFs.Valid, SfsFs.Files, SfsFs.Counts, SfsFs.Settled, Bumped, SlotFilled, EmptyImg, SameButRoot,
      Crowded, SlotsMapped, LinkErr, CreatErr, Full;
    ghost var f, c := sfs.Files(), sfs.Counts();
    TreeFacts(f, c);
    var slot;
    e, ino := NewObject(sfs);
    if e != Ok {
      CreatErrs(e, Ok, Names(f), name, sfs.nblocks, |f|, false);
      return;
    }
    e, slot := BindName(sfs, name, ino);
    ghost var full := Full(sfs.nblocks, sfs.owner);
    if e != Ok {
      if full { NoRoom(sfs); }
      CreatErrs(Ok, e, Names(f), name, sfs.nblocks, |f|, full);
      GiveUp(sfs, ino);
      CreatUndone(f, c, ino);
      return;
    }
    CreatErrs(Ok, e, Names(f), name, sfs.nblocks, |f|, full);
    CreatDone(f, sfs.Files(), ino);
  }

  // e1 is the answer of sfs_makeobj and e2 that of sfs_dir_link, if it came to that.
  lemma CreatErrs(e1: Err, e2: Err, m: map<Name, nat>, name: Name, n: nat, files: nat, full: bool)
    requires e1 == Ok ==> name !in m && LinkErr(e2, m, name, full)
    requires e1 == ENOSPC ==> Crowded(n, files)
    requires e2 != Ok && full ==> Crowded(n, files + 1)
    ensures e1 == Ok ==> CreatErr(e2, m, name, n, files)
    ensures e1 == ENOSPC ==> CreatErr(e1, m, name, n, files)
  {
    hide Crowded;
  }

  // sfs_creat: an existing file, or a new empty one under the name; a failure of
  // any kind leaves files, names and references as they were.
  method Creat(sfs: SfsFs, name: Name, excl: bool) returns (e: Err, ino: nat)
    requires Ready(sfs) && IsName(name)
    modifies sfs`disk, sfs`vnodes, sfs`owner, sfs.freemap.v
    ensures Ready(sfs)
    ensures e == EEXIST <==> excl && name in old(NamesOf(sfs))
    ensures e != Ok ==> sfs.Files() == old(sfs.Files()) && sfs.Counts() == old(sfs.Counts())
    ensures e == Ok && name in old(NamesOf(sfs)) ==>
              && ino == old(NamesOf(sfs))[name]
              && sfs.Files() == old(sfs.Files()) && sfs.Counts() == Incremented(old(sfs.Counts()), ino)
    ensures e == Ok && name !in old(NamesOf(sfs)) ==>
              && ino !in old(sfs.Files()) && SameButRoot(old(sfs.Files())[ino := NewFile()], sfs.Files())
              && NamesOf(sfs) == old(NamesOf(sfs))[name := ino] && sfs.Counts() == old(sfs.Counts())[ino := 1]
    ensures name in old(NamesOf(sfs)) && !excl ==> e == Ok
    ensures name !in old(NamesOf(sfs)) ==> CreatErr(e, old(NamesOf(sfs)), name, sfs.nblocks, |old(sfs.Files())|)
  {
    hide Entries, TreeOk, Names, SfsFs.Valid, SfsFs.Files, SfsFs.Counts, SfsFs.Settled, SlotsMapped, SameButRoot, Crowded;
    ghost var f, c := sfs.Files(), sfs.Counts();
    var slot;
    e, ino, slot := FindFile(sfs, name);
    if e == Ok && excl {
      return EEXIST, 0;
    }
    if e == Ok {
      LoadVnode(sfs, ino);
      IncrementKeepsTree(f, c, ino);
      return;
    }
    e, ino := CreateNew(sfs, name);
  }

  // With every block in use, the files are enough to fill the disk.
  lemma NoRoom(sfs: SfsFs)
    requires sfs.Valid() && sfs.Settled() && Full(sfs.nblocks, sfs.owner)
    ensures Crowded(sfs.nblocks, |sfs.Files()|) && Crowded(sfs.nblocks, |sfs.Files()| + 1)
  {
    hide Inv, Images, NoFresh;
    FullIsCrowded(sfs.View(), sfs.owner);
  }

  // Giving up the only reference to an unlinked new object removes it again.
  lemma CreatUndone(f: Files, c: Counts, ino: nat)
    requires ino !in f && ino !in c
    ensures FilesAfterDrop(f[ino := EmptyImg(TYPE_FILE)], c[ino := 1], ino) == f
    ensures CountsAfterDrop(c[ino := 1], ino) == c
  {
    hide EmptyImg;
    EmptyMeta(TYPE_FILE);
    assert f[ino := EmptyImg(TYPE_FILE)] - {ino} == f;
    assert c[ino := 1] - {ino} == c;
  }

  lemma CreatDone(f: Files, g: Files, ino: nat)
    requires ino !in f && 1 in f && Bumped(f[ino := EmptyImg(TYPE_FILE)], g, ino)
    ensures SameButRoot(f[ino := NewFile()], g)
  {
    hide EmptyImg;
    EmptyMeta(TYPE_FILE);
    assert Relinked(f[ino := EmptyImg(TYPE_FILE)], ino, 1) == f[ino := NewFile()];
  }

  // What is left of the files when v loses one link and is otherwise referenced as c says.
  function FilesAfterUnlink(f: Files, c: Counts, v: nat): Files
    requires v in f && f[v].links > 0
  {
    var h := Relinked(f, v, f[v].links - 1);
    if v !in c && h[v].links == 0 then h - {v} else h
  }

  // A lookup's reference taken and given back leaves the counts as they were.
  lemma ReferenceReturned(f: Files, c: Counts, v: nat)
    requires v in f && (v in c ==> c[v] > 0)
    ensures v in Incremented(c, v) && CountsAfterDrop(Incremented(c, v), v) == c
    ensures FilesAfterDrop(f, Incremented(c, v), v) == if v !in c && f[v].links == 0 then f - {v} else f
  {
    if v !in c {
      assert c[v := 1] - {v} == c;
    }
  }

  // Clearing a slot and uncounting its link, on a file in hand.
  method Unbind(sfs: SfsFs, slot: nat, v: nat)
    requires Ready(sfs) && v in sfs.Counts()
    requires 1 in sfs.Files() && DirOk(sfs.Files()[1])
    requires slot < |Entries(sfs.Files()[1])| && 0 != Entries(sfs.Files()[1])[slot].ino == v
    modifies sfs`disk, sfs`vnodes, sfs`owner, sfs.freemap.v
    ensures Ready(sfs) && sfs.Counts() == old(sfs.Counts())
    ensures NamesOf(sfs) == old(NamesOf(sfs)) - {Entries(old(sfs.Files())[1])[slot].name}
    ensures Dropped(old(sfs.Files()), sfs.Files(), v)
  {
    hide Directory, Entries, TreeOk, Names, SlotSet, SfsFs.Valid, SfsFs.Files, SfsFs.Counts, SfsFs.Settled, SlotsMapped, Relinked,
      Dropped;
    ghost var f, c := sfs.Files(), sfs.Counts();
    TreeFacts(f, c);
    var e := DirUnlink(sfs, slot);
    ghost var f1 := sfs.Files();
    SlotSetFacts(f, f1, slot, Entry(0, []));
    UnlinkKeepsTree(f, c, f1, slot, Entry(0, []), v);
    DroppedBy(f, f1, slot, v);
    ghost var g := Relinked(f1, v, f1[v].links - 1);
    var n := GetLinks(sfs, v);
    assert n > 0;
    SetLinks(sfs, v, n - 1);
    assert sfs.Files() == g;
  }

  // One link fewer on v; otherwise only the root directory's contents changed.
  ghost predicate Dropped(f: Files, g: Files, v: nat) {
    v in f && f[v].links > 0 && SameButRoot(Relinked(f, v, f[v].links - 1), g)
  }

  lemma DroppedBy(f: Files, f1: Files, i: nat, v: nat)
    requires SlotSet(f, f1, i, Entry(0, [])) && v in f && f[v].links > 0
    ensures v in f1 && f1[v].links > 0 && Dropped(f, Relinked(f1, v, f1[v].links - 1), v)
  {
    hide Entries, SetSlot;
    var g := Relinked(f1, v, f1[v].links - 1);
    var h := Relinked(f, v, f[v].links - 1);
    assert h - {1} == g - {1};
  }

  // sfs_remove: the name goes, and the file with it when that was its last link
  // and nobody holds it.
  method Remove(sfs: SfsFs, name: Name) returns (e: Err)
    requires Ready(sfs) && IsName(name)
    modifies sfs`disk, sfs`vnodes, sfs`owner, sfs.freemap.v
    ensures Ready(sfs) && sfs.Counts() == old(sfs.Counts())
    ensures e == Ok <==> name in old(NamesOf(sfs))
    ensures e != Ok ==> e == ENOENT && sfs.Files() == old(sfs.Files())
    ensures e == Ok ==> NamesOf(sfs) == old(NamesOf(sfs)) - {name}
    ensures e == Ok ==> Removed(old(sfs.Files()), old(sfs.Counts()), sfs.Files(), old(NamesOf(sfs))[name])
  {
    hide Directory, Entries, TreeOk, Names, SfsFs.Valid, SfsFs.Files, SfsFs.Counts, SfsFs.Settled, SlotsMapped, Dropped, Removed;
    ghost var f, c := sfs.Files(), sfs.Counts();
    TreeFacts(f, c);
    var victim, slot;
    e, victim, slot := LookOnce(sfs, name);
    if e != Ok {
      return;
    }
    Unbind(sfs, slot, victim);
    ghost var f2, c2 := sfs.Files(), sfs.Counts();
    TreeFacts(f2, c2);
    DropKeepsTree(f2, c2, victim);
    ReferenceReturned(f2, c, victim);
    RemovedBy(f, c, f2, victim);
    GiveUp(sfs, victim);
  }

  ghost predicate Removed(f: Files, c: Counts, g: Files, v: nat) {
    v in f && f[v].links > 0 && SameButRoot(FilesAfterUnlink(f, c, v), g)
  }

  lemma RemovedBy(f: Files, c: Counts, g: Files, v: nat)
    requires Dropped(f, g, v) && v in g && (v == 1 ==> g[v].links > 0)
    ensures Removed(f, c, if v !in c && g[v].links == 0 then g - {v} else g, v)
  {
    var h := Relinked(f, v, f[v].links - 1);
    assert h - {1} == g - {1};
    assert v != 1 ==> v in h - {1} && (h - {1})[v] == (g - {1})[v];
    assert h - {v} - {1} == h - {1} - {v} && g - {v} - {1} == g - {1} - {v};
  }

  // Linking a file in hand under a new name and clearing the old slot.
  method Rebind(sfs: SfsFs, n1: Name, n2: Name, v: nat, slot1: nat) returns (e: Err)
    requires Ready(sfs) && IsName(n2) && n1 in NamesOf(sfs) && v in sfs.Counts()
    requires 1 in sfs.Files() && DirOk(sfs.Files()[1]) && slot1 < |Entries(sfs.Files()[1])|
    requires 0 != Entries(sfs.Files()[1])[slot1].ino == v == NamesOf(sfs)[n1] && Entries(sfs.Files()[1])[slot1].name == n1
    modifies sfs`disk, sfs`vnodes, sfs`owner, sfs.freemap.v
    ensures Ready(sfs) && sfs.Counts() == old(sfs.Counts())
    ensures LinkErr(e, old(NamesOf(sfs)), n2, Full(sfs.nblocks, sfs.owner))
    ensures e != Ok ==> sfs.Files() == old(sfs.Files())
    ensures e == Ok ==> NamesOf(sfs) == (old(NamesOf(sfs)) - {n1})[n2 := v] && SameButRoot(old(sfs.Files()), sfs.Files())
    ensures v in sfs.Files() && sfs.Files()[v].links > 0
  {
    hide Directory, Entries, TreeOk, Names, SfsFs.Valid, SfsFs.Files, SfsFs.Counts, SfsFs.Settled, SlotsMapped, Dropped, Bumped,
      SlotFilled, SameButRoot, Full;
    ghost var f, c := sfs.Files(), sfs.Counts();
    TreeFacts(f, c);
    CheckNumber(sfs, v);
    var slot2;
    e, slot2 := BindName(sfs, n2, v);
    if e != Ok {
      return;
    }
    ghost var f1 := sfs.Files();
    TreeFacts(f1, c);
    SlotUntouched(f, f1, slot2, Entry(v, n2), slot1);
    BindingMoved(Names(f), n1, n2, v);
    Unbind(sfs, slot1, v);
    TreeFacts(sfs.Files(), c);
    RenameDone(f, f1, sfs.Files(), v);
  }

  // sfs_rename: one binding moves to the new name and no other binding changes; the
  // recovery path for a failing unlink is never taken. The assertion that only files are
  // renamed fails exactly if the old name leads to the root directory.
  method Rename(sfs: SfsFs, n1: Name, n2: Name) returns (e: Err)
    requires Ready(sfs) && IsName(n1) && IsName(n2)
    modifies sfs`disk, sfs`vnodes, sfs`owner, sfs.freemap.v
    ensures Ready(sfs)
    ensures e == AssertionFailed <==> n1 in old(NamesOf(sfs)) && old(NamesOf(sfs))[n1] == 1
    ensures e == ENOENT <==> n1 !in old(NamesOf(sfs))
    ensures e != AssertionFailed && e != ENOENT ==> LinkErr(e, old(NamesOf(sfs)), n2, Full(sfs.nblocks, sfs.owner))
    ensures e != Ok ==> sfs.Files() == old(sfs.Files())
    ensures e != AssertionFailed ==> sfs.Counts() == old(sfs.Counts())
    ensures e == Ok ==> NamesOf(sfs) == (old(NamesOf(sfs)) - {n1})[n2 := old(NamesOf(sfs))[n1]]
    ensures e == Ok ==> SameButRoot(old(sfs.Files()), sfs.Files())
  {
    hide Directory, Entries, TreeOk, Names, SfsFs.Valid, SfsFs.Files, SfsFs.Counts, SfsFs.Settled, SlotsMapped, Dropped, Bumped,
      SlotFilled, SameButRoot, Full;
    ghost var f, c := sfs.Files(), sfs.Counts();
    TreeFacts(f, c);
    var g1, slot1;
    e, g1, slot1 := LookOnce(sfs, n1);
    if e != Ok {
      return;
    }
    // Asserted, there being no subdirectories.
    var kind := GetKind(sfs, g1);
    if kind != TYPE_FILE {
      return AssertionFailed;
    }
    e := Rebind(sfs, n1, n2, g1, slot1);
    LetGo(sfs, g1, c);
  }

  // The reference a lookup took on a linked file is given back.
  method LetGo(sfs: SfsFs, v: nat, ghost c: Counts)
    requires Ready(sfs) && sfs.Counts() == Incremented(c, v) && 1 in c && (v in c ==> c[v] > 0)
    requires v in sfs.Files() && sfs.Files()[v].links > 0
    modifies sfs`disk, sfs`vnodes, sfs`owner, sfs.freemap.v
    ensures Ready(sfs) && sfs.Files() == old(sfs.Files()) && sfs.Counts() == c && sfs.owner == old(sfs.owner)
  {
    hide TreeOk, SfsFs.Valid, SfsFs.Files, SfsFs.Counts, SfsFs.Settled, SlotsMapped;
    ghost var f := sfs.Files();
    ReferenceReturned(f, c, v);
    DropKeepsTree(f, sfs.Counts(), v);
    GiveUp(sfs, v);
  }

  lemma SlotUntouched(f: Files, g: Files, slot: nat, e: Entry, i: nat)
    requires SlotFilled(f, g, slot, e) && i < |Entries(f[1])| && Entries(f[1])[i].ino != 0
    ensures i < |Entries(g[1])| && Entries(g[1])[i] == Entries(f[1])[i]
  {
    hide Entries;
  }

  lemma BindingMoved(m: map<Name, nat>, n1: Name, n2: Name, v: nat)
    requires n1 in m && n2 !in m
    ensures m[n2 := v] - {n1} == (m - {n1})[n2 := v]
  {
  }

  // A link gained and a link lost leave the file as it was.
  lemma RenameDone(f: Files, f1: Files, f2: Files, v: nat)
    requires Bumped(f, f1, v) && Dropped(f1, f2, v) && v in f2
    ensures SameButRoot(f, f2) && v in f && f2[v].links == f[v].links
  {
    var h := Relinked(f, v, f[v].links + 1);
    var h1 := Relinked(f1, v, f1[v].links - 1);
    assert h - {1} == f1 - {1} && h1 - {1} == f2 - {1};
    assert v != 1 ==> (h - {1})[v] == (f1 - {1})[v] && (h1 - {1})[v] == (f2 - {1})[v];
    forall j | j in f && j != 1 ensures j in f2 && f2[j] == f[j] {
      assert j in h - {1} && (h - {1})[j] == (f1 - {1})[j];
      assert j in h1 - {1} && (h1 - {1})[j] == (f2 - {1})[j];
    }
    forall j | j in f2 && j != 1 ensures j in f {
      assert j in h1 - {1};
      assert j in f1 - {1};
    }
    assert f - {1} == f2 - {1};
  }
}
