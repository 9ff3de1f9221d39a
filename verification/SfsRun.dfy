// The filesystem as its users see it: names lead to files, files are byte
// sequences, and a file lives as long as a name or a reference leads to it.
// Every run of the code from a fresh image is a run of this specification.
module SfsRun {
  import opened SfsLayout
  import opened SfsBlocks
  import opened SfsSteps
  import opened SfsTruncate
  import opened SfsBytes
  import opened SfsCore
  import opened SfsIo
  import opened SfsDir
  import opened SfsDirOps
  import opened SfsVnodeOps
  import opened SfsTree
  import opened SfsNames
  import opened SfsSpace
  import opened SfsImage
  import opened Bitmaps
  import opened Uios

  // ---- The specification ----

  datatype Abs = Abs(names: map<Name, nat>, data: map<nat, seq<Byte>>, refs: map<nat, nat>)

  datatype Op =
    | Creat(name: Name, excl: bool)
    | Link(name: Name, ino: nat)
    | Lookup(name: Name)
    | Remove(name: Name)
    | Rename(n1: Name, n2: Name)
    | Read(ino: nat, off: nat, len: nat)
    | Write(ino: nat, off: nat, bytes: seq<Byte>)
    | Erase(ino: nat)
    | Release(ino: nat)

  datatype Reply = Reply(err: Err, ino: nat, bytes: seq<Byte>, count: nat)

  // A file in hand, other than the root directory.
  predicate Holds(a: Abs, j: nat) {
    j != 1 && j in a.refs && j in a.data
  }

  // A reference that can be given up: the root directory stays in hand.
  predicate Droppable(a: Abs, j: nat) {
    j in a.refs && (j == 1 ==> a.refs[1] > 1)
  }

  // Drop the files no name and no reference leads to.
  function Prune(a: Abs): Abs {
    a.(data := map j | j in a.data && (j in a.names.Values || j in a.refs) :: a.data[j])
  }

  // Why a name that is not there yet cannot be added, on a disk of n blocks. A block of the
  // directory takes eight names, so one is needed only if all there are are full.
  predicate BindFails(n: nat, a: Abs, name: Name, e: Err) {
    match e
    case ENAMETOOLONG => |name| >= 60
    case EINVAL => |a.names| == 1144
    case ENOSPC => |a.names| % 8 == 0 && Crowded(n, |a.data| + 1)
    case _ => false
  }

  // The same for a new file, which needs a block for its inode too.
  predicate CreatFails(n: nat, a: Abs, name: Name, e: Err) {
    match e
    case ENAMETOOLONG => |name| >= 60
    case EINVAL => |a.names| == 1144
    case ENOSPC => Crowded(n, |a.data| + 1) || (|a.names| % 8 == 0 && Crowded(n, |a.data| + 2))
    case _ => false
  }

  ghost predicate CreatStep(n: nat, a: Abs, op: Op, r: Reply, b: Abs)
    requires op.Creat?
  {
    if r.err != Ok then
      && b == a
      && (if op.name in a.names then op.excl && r.err == EEXIST else CreatFails(n, a, op.name, r.err))
    else if op.name in a.names then
      !op.excl && r.ino == a.names[op.name] && b == a.(refs := Incremented(a.refs, r.ino))
    else
      && |op.name| < 60 && r.ino !in a.data && r.ino !in a.refs
      && b == Abs(a.names[op.name := r.ino], a.data[r.ino := []], a.refs[r.ino := 1])
  }

  ghost predicate LinkStep(n: nat, a: Abs, op: Op, r: Reply, b: Abs)
    requires op.Link?
  {
    if op.name in a.names then r.err == EEXIST && b == a
    else if r.err != Ok then BindFails(n, a, op.name, r.err) && b == a
    else |op.name| < 60 && b == a.(names := a.names[op.name := op.ino])
  }

  ghost predicate LookupStep(a: Abs, op: Op, r: Reply, b: Abs)
    requires op.Lookup?
  {
    if op.name !in a.names then r.err == ENOENT && b == a
    else r.err == Ok && r.ino == a.names[op.name] && b == a.(refs := Incremented(a.refs, r.ino))
  }

  ghost predicate RemoveStep(a: Abs, op: Op, r: Reply, b: Abs)
    requires op.Remove?
  {
    if op.name !in a.names then r.err == ENOENT && b == a
    else r.err == Ok && b == Prune(a.(names := a.names - {op.name}))
  }

  ghost predicate RenameStep(n: nat, a: Abs, op: Op, r: Reply, b: Abs)
    requires op.Rename?
  {
    if op.n1 !in a.names then r.err == ENOENT && b == a
    else if op.n2 in a.names then r.err == EEXIST && b == a
    else if r.err != Ok then BindFails(n, a, op.n2, r.err) && b == a
    else |op.n2| < 60 && b == a.(names := (a.names - {op.n1})[op.n2 := a.names[op.n1]])
  }

  // A read returns the bytes from off to the end of the request or of the file, or fails at
  // the end of the block map with those before it.
  ghost predicate ReadStep(a: Abs, op: Op, r: Reply, b: Abs)
    requires op.Read? && op.ino in a.data
  {
    var s := a.data[op.ino];
    && b == a
    && (r.err == Ok ==> r.bytes == if op.off >= |s| then [] else s[op.off..Min(op.off + op.len, |s|)])
    && (r.err != Ok ==>
          && r.err == EINVAL && Min(op.off + op.len, |s|) > 73216
          && 73216 <= op.off + |r.bytes| <= |s| && r.bytes == s[op.off..op.off + |r.bytes|])
  }

  // A write overlays the bytes it accepted, a gap becoming zeros. It accepts all up to the end
  // of the block map as long as the disk has room.
  ghost predicate WriteStep(n: nat, a: Abs, op: Op, r: Reply, b: Abs)
    requires op.Write? && op.ino in a.data
  {
    && r.count <= |op.bytes| && (r.err == Ok ==> r.count == |op.bytes|)
    && (r.err == Ok || (r.err == ENOSPC && Crowded(n, |a.data| + 1)) || (r.err == EINVAL && op.off + |op.bytes| > 73216 && op.off + r.count >= 73216))
    && b == a.(data := a.data[op.ino := FlatWrite(a.data[op.ino], op.off, op.bytes[..r.count])])
  }

  // One call on a disk of n blocks.
  ghost predicate AbsStep(n: nat, a: Abs, op: Op, r: Reply, b: Abs) {
    match op
    case Creat(_, _) => CreatStep(n, a, op, r, b)
    case Link(_, j) => LinkStep(n, a, op, r, b)
    case Lookup(_) => LookupStep(a, op, r, b)
    case Remove(_) => RemoveStep(a, op, r, b)
    case Rename(_, _) => RenameStep(n, a, op, r, b)
    case Read(j, _, _) => j in a.data && ReadStep(a, op, r, b)
    case Write(j, _, _) => j in a.data && WriteStep(n, a, op, r, b)
    case Erase(j) => r.err == Ok && b == a.(data := a.data[j := []])
    case Release(j) => r.err == Ok && j in a.refs && a.refs[j] > 0 && b == Prune(a.(refs := CountsAfterDrop(a.refs, j)))
  }

  // Renaming a name of the root directory fails an assertion.
  predicate Halts(a: Abs, op: Op) {
    op.Rename? && IsName(op.n1) && IsName(op.n2) && op.n1 in a.names && a.names[op.n1] == 1
  }

  // ---- The abstraction ----

  ghost function DataOf(f: Files): (m: map<nat, seq<Byte>>)
    ensures forall j :: j in m <==> j in f && j != 1
    ensures forall j :: j in m ==> m[j] == Contents(f[j])
  {
    map j | j in f && j != 1 :: Contents(f[j])
  }

  ghost function Abstract(f: Files, c: Counts): Abs {
    Abs(Names(f), DataOf(f), c)
  }

  // What holds between operations besides the tree: files store only zeros past
  // their end.
  ghost predicate Tidy(f: Files) {
    forall j :: j in f && j != 1 ==> ZeroTail(f[j])
  }

  // Every file but the root has its data.
  lemma FileCount(f: Files)
    requires 1 in f
    ensures |f| == |DataOf(f)| + 1
  {
    assert f.Keys == DataOf(f).Keys + {1};
  }

  predicate InSlot(s: seq<Entry>, j: nat) {
    exists i :: 0 <= i < |s| && s[i].ino == j
  }

  lemma NamedIffInSlot(s: seq<Entry>, j: nat)
    requires NamesUnique(s) && j != 0
    ensures j in Directory(s).Values <==> InSlot(s, j)
  {
    hide Directory, NamesUnique;
    var m := Directory(s);
    if InSlot(s, j) {
      var i :| 0 <= i < |s| && s[i].ino == j;
      assert s[i].name in m && m[s[i].name] == j;
    }
    if j in m.Values {
      var n :| n in m && m[n] == j;
      assert Bound(s, n);
      var i :| 0 <= i < |s| && s[i].ino != 0 && s[i].name == n;
    }
  }

  lemma LinkedIffInSlot(s: seq<Entry>, j: nat)
    ensures Links(s, j) > 0 <==> InSlot(s, j)
  {
    if Links(s, j) > 0 {
      assert j in multiset(InoSeq(s));
      assert j in InoSeq(s);
      var i :| 0 <= i < |s| && InoSeq(s)[i] == j;
      assert s[i].ino == j;
    }
    if InSlot(s, j) {
      var i :| 0 <= i < |s| && s[i].ino == j;
      LinksPositive(s, i);
    }
  }

  // A file has a link exactly when a name leads to it.
  lemma LinkedIffNamed(f: Files, c: Counts, j: nat)
    requires TreeOk(f, c) && j in f && j != 1
    ensures f[j].links > 0 <==> j in Names(f).Values
  {
    LinksAre(f, c, j);
    hide Links, Entries, TreeOk, Names, Directory;
    TreeFacts(f, c);
    NamedIffInSlot(Entries(f[1]), j);
    LinkedIffInSlot(Entries(f[1]), j);
  }

  lemma LinksAre(f: Files, c: Counts, j: nat)
    requires TreeOk(f, c) && j in f && j != 1
    ensures 1 in f && DirOk(f[1]) && f[j].links == Links(Entries(f[1]), j)
  {
    hide Entries, Links, NamesUnique;
  }

  // A file exists exactly as long as a name or a reference leads to it.
  lemma LivesIffLed(f: Files, c: Counts, j: nat)
    requires TreeOk(f, c) && j != 1
    ensures j in f <==> j in Names(f).Values || j in c
  {
    hide TreeOk, Names;
    TreeFacts(f, c);
    if j in f {
      LinkedIffNamed(f, c, j);
      if j !in c { Alive(f, c, j); }
    }
    if j in Names(f).Values {
      var n :| n in Names(f) && Names(f)[n] == j;
      assert Names(f)[n] in f;
    }
  }

  lemma Alive(f: Files, c: Counts, j: nat)
    requires TreeOk(f, c) && j in f && j !in c
    ensures f[j].links > 0
  {
  }

  // ---- Each operation, abstractly ----

  lemma ContentsOfRelinked(img: Img, n: Half)
    ensures Contents(img.(links := n)) == Contents(img)
    ensures ZeroTail(img.(links := n)) <==> ZeroTail(img)
  {
    hide At;
    assert Contents(img.(links := n)) == Contents(img);
  }

  // g has the same files as f, up to link counts, except perhaps that some are gone.
  ghost predicate Within(f: Files, g: Files) {
    forall j :: j in g && j != 1 ==> j in f && g[j].size == f[j].size && g[j].blocks == f[j].blocks
  }

  lemma WithinData(f: Files, g: Files, j: nat)
    requires Within(f, g) && j in g && j != 1
    ensures j in f && Contents(g[j]) == Contents(f[j]) && (ZeroTail(f[j]) ==> ZeroTail(g[j]))
  {
    hide At;
    assert Contents(g[j]) == Contents(f[j]);
  }

  lemma WithinTidy(f: Files, g: Files)
    requires Tidy(f) && Within(f, g)
    ensures Tidy(g)
  {
    hide ZeroTail;
    forall j | j in g && j != 1 ensures ZeroTail(g[j]) {
      WithinData(f, g, j);
    }
  }

  // If the surviving files are unchanged, the abstract state is the pruned old data.
  lemma PruneTo(f: Files, g: Files, c: Counts)
    requires TreeOk(g, c) && Within(f, g)
    ensures Abstract(g, c) == Prune(Abs(Names(g), DataOf(f), c))
  {
    hide TreeOk, Names, Contents, Within;
    var m, p := DataOf(g), Prune(Abs(Names(g), DataOf(f), c)).data;
    forall j ensures j in p <==> j in m {
      if j != 1 {
        LivesIffLed(g, c, j);
        if j in g { WithinData(f, g, j); }
      }
    }
    forall j | j in m ensures p[j] == m[j] {
      WithinData(f, g, j);
    }
    assert p == m;
  }

  lemma SameButRootData(f: Files, g: Files)
    requires SameButRoot(f, g)
    ensures DataOf(g) == DataOf(f) && Within(f, g)
  {
    hide Contents;
    forall j | j != 1 ensures j in f <==> j in g
    {
      assert j in f - {1} <==> j in g - {1};
    }
    forall j | j in g && j != 1 ensures g[j] == f[j] {
      assert (f - {1})[j] == (g - {1})[j];
    }
  }

  lemma RelinkedData(f: Files, j: nat, n: Half)
    requires j in f
    ensures DataOf(Relinked(f, j, n)) == DataOf(f) && Within(f, Relinked(f, j, n))
  {
    hide Contents;
    ContentsOfRelinked(f[j], n);
  }

  lemma WithinTrans(f: Files, g: Files, h: Files)
    requires Within(f, g) && Within(g, h)
    ensures Within(f, h)
  {
  }

  lemma RemovedWithin(f: Files, c: Counts, g: Files, v: nat)
    requires Removed(f, c, g, v)
    ensures Within(f, g)
  {
    hide Contents;
    var h := FilesAfterUnlink(f, c, v);
    SameButRootData(h, g);
    assert Within(f, h);
    WithinTrans(f, h, g);
  }

  lemma BumpedData(f: Files, g: Files, v: nat)
    requires Bumped(f, g, v)
    ensures DataOf(g) == DataOf(f) && Within(f, g)
  {
    hide Contents, Relinked, SameButRoot;
    var h := Relinked(f, v, f[v].links + 1);
    RelinkedData(f, v, f[v].links + 1);
    SameButRootData(h, g);
    WithinTrans(f, h, g);
  }

  ghost predicate Good(sfs: SfsFs)
    reads sfs, sfs.freemap.v
  {
    Ready(sfs) && Tidy(sfs.Files())
  }

  ghost function AbsOf(sfs: SfsFs): Abs
    reads sfs
  {
    Abstract(sfs.Files(), sfs.Counts())
  }

  method DoCreat(sfs: SfsFs, op: Op) returns (r: Reply)
    requires Good(sfs) && op.Creat? && IsName(op.name)
    modifies sfs`disk, sfs`vnodes, sfs`owner, sfs.freemap.v
    ensures Good(sfs) && AbsStep(sfs.nblocks, old(AbsOf(sfs)), op, r, AbsOf(sfs))
  {
    hide TreeOk, Names, SfsFs.Valid, SfsFs.Files, SfsFs.Counts, SfsFs.Settled, SameButRoot, Tidy, EmptyImg, NewFile, Crowded,
      AbsStep, Abstract, CreatErr, SlotsMapped;
    ghost var f, c := sfs.Files(), sfs.Counts();
    TreeFacts(f, c);
    var e, ino := SfsNames.Creat(sfs, op.name, op.excl);
    r := Reply(e, ino, [], 0);
    if e == Ok && op.name !in Names(f) {
      CreatSim(sfs.nblocks, f, c, sfs.Files(), op, r);
    } else {
      CreatOther(sfs.nblocks, f, c, sfs.Counts(), op, r);
    }
  }

  lemma CreatSim(n: nat, f: Files, c: Counts, g: Files, op: Op, r: Reply)
    requires op.Creat? && op.name !in Names(f) && r.err == Ok && CreatErr(Ok, Names(f), op.name, n, |f|)
    requires Tidy(f) && r.ino !in f && r.ino !in c && 1 in f && SameButRoot(f[r.ino := NewFile()], g)
    requires Names(g) == Names(f)[op.name := r.ino]
    ensures Tidy(g) && AbsStep(n, Abstract(f, c), op, r, Abstract(g, c[r.ino := 1]))
  {
    hide Names, SameButRoot;
    var h := f[r.ino := NewFile()];
    SameButRootData(h, g);
    assert Contents(NewFile()) == [] && ZeroTail(NewFile());
    assert DataOf(h) == DataOf(f)[r.ino := []];
    forall j | j in g && j != 1 ensures ZeroTail(g[j]) {
      hide ZeroTail;
      WithinData(h, g, j);
    }
  }

  lemma CreatOther(n: nat, f: Files, c: Counts, c': Counts, op: Op, r: Reply)
    requires op.Creat? && 1 in f
    requires r.err == Ok ==> op.name in Names(f) && !op.excl && r.ino == Names(f)[op.name] && c' == Incremented(c, r.ino)
    requires r.err != Ok ==> c' == c
    requires r.err != Ok && op.name in Names(f) ==> op.excl && r.err == EEXIST
    requires r.err != Ok && op.name !in Names(f) ==> CreatErr(r.err, Names(f), op.name, n, |f|)
    ensures AbsStep(n, Abstract(f, c), op, r, Abstract(f, c'))
  {
    hide Names, Crowded;
    FileCount(f);
  }

  method DoLink(sfs: SfsFs, op: Op) returns (r: Reply)
    requires Good(sfs) && op.Link? && IsName(op.name) && op.ino in AbsOf(sfs).refs
    modifies sfs`disk, sfs`vnodes, sfs`owner, sfs.freemap.v
    ensures Good(sfs) && AbsStep(sfs.nblocks, old(AbsOf(sfs)), op, r, AbsOf(sfs))
  {
    hide TreeOk, Names, SfsFs.Valid, SfsFs.Files, SfsFs.Settled, Bumped, Crowded, Full, LinkErr, Tidy, AbsStep;
    ghost var f, c := sfs.Files(), sfs.Counts();
    TreeFacts(f, c);
    var e := SfsNames.Link(sfs, op.name, op.ino);
    r := Reply(e, 0, [], 0);
    if Full(sfs.nblocks, sfs.owner) { NoRoom(sfs); }
    LinkSim(sfs.nblocks, f, c, sfs.Files(), op, r, Full(sfs.nblocks, sfs.owner));
  }

  lemma LinkSim(n: nat, f: Files, c: Counts, g: Files, op: Op, r: Reply, full: bool)
    requires op.Link? && Tidy(f) && 1 in f && LinkErr(r.err, Names(f), op.name, full)
    requires full && r.err != Ok ==> Crowded(n, |f|)
    requires if r.err != Ok then g == f else Bumped(f, g, op.ino) && Names(g) == Names(f)[op.name := op.ino]
    ensures Tidy(g) && AbsStep(n, Abstract(f, c), op, r, Abstract(g, c))
  {
    hide Names, Crowded, Bumped, Tidy;
    FileCount(f);
    if r.err == Ok {
      BumpedData(f, g, op.ino);
      WithinTidy(f, g);
    }
  }

  method DoLookup(sfs: SfsFs, op: Op) returns (r: Reply)
    requires Good(sfs) && op.Lookup? && IsName(op.name)
    modifies sfs`disk, sfs`vnodes, sfs`owner, sfs.freemap.v
    ensures Good(sfs) && AbsStep(sfs.nblocks, old(AbsOf(sfs)), op, r, AbsOf(sfs))
  {
    hide TreeOk, Names, SfsFs.Valid, SfsFs.Files, SfsFs.Counts, SfsFs.Settled;
    var e, ino := SfsNames.Lookup(sfs, op.name);
    r := Reply(e, ino, [], 0);
  }

  method DoRemove(sfs: SfsFs, op: Op) returns (r: Reply)
    requires Good(sfs) && op.Remove? && IsName(op.name)
    modifies sfs`disk, sfs`vnodes, sfs`owner, sfs.freemap.v
    ensures Good(sfs) && AbsStep(sfs.nblocks, old(AbsOf(sfs)), op, r, AbsOf(sfs))
  {
    hide TreeOk, Names, SfsFs.Valid, SfsFs.Files, SfsFs.Counts, SfsFs.Settled, Removed, Prune;
    ghost var f, c := sfs.Files(), sfs.Counts();
    var e := SfsNames.Remove(sfs, op.name);
    r := Reply(e, 0, [], 0);
    if e == Ok {
      RemovedWithin(f, c, sfs.Files(), Names(f)[op.name]);
      WithinTidy(f, sfs.Files());
      PruneTo(f, sfs.Files(), c);
    }
  }

  method DoRename(sfs: SfsFs, op: Op) returns (r: Reply)
    requires Good(sfs) && op.Rename? && IsName(op.n1) && IsName(op.n2)
    modifies sfs`disk, sfs`vnodes, sfs`owner, sfs.freemap.v
    ensures r.err == AssertionFailed <==> Halts(old(AbsOf(sfs)), op)
    ensures r.err != AssertionFailed ==> Good(sfs) && AbsStep(sfs.nblocks, old(AbsOf(sfs)), op, r, AbsOf(sfs))
  {
    hide TreeOk, Names, SfsFs.Valid, SfsFs.Files, SfsFs.Counts, SfsFs.Settled, SameButRoot, Crowded, Full, LinkErr, Tidy,
      AbsStep;
    ghost var f, c := sfs.Files(), sfs.Counts();
    TreeFacts(f, c);
    var e := SfsNames.Rename(sfs, op.n1, op.n2);
    r := Reply(e, 0, [], 0);
    if e != AssertionFailed {
      if Full(sfs.nblocks, sfs.owner) { NoRoom(sfs); }
      RenameSim(sfs.nblocks, f, c, sfs.Files(), op, r, Full(sfs.nblocks, sfs.owner));
    }
  }

  lemma RenameSim(n: nat, f: Files, c: Counts, g: Files, op: Op, r: Reply, full: bool)
    requires op.Rename? && Tidy(f) && 1 in f
    requires r.err == ENOENT <==> op.n1 !in Names(f)
    requires r.err != ENOENT ==> LinkErr(r.err, Names(f), op.n2, full)
    requires full && r.err != Ok ==> Crowded(n, |f|)
    requires r.err != Ok ==> g == f
    requires r.err == Ok ==> SameButRoot(f, g) && Names(g) == (Names(f) - {op.n1})[op.n2 := Names(f)[op.n1]]
    ensures Tidy(g) && AbsStep(n, Abstract(f, c), op, r, Abstract(g, c))
  {
    hide Names, Crowded, SameButRoot, Tidy;
    FileCount(f);
    if r.err == Ok {
      SameButRootData(f, g);
      WithinTidy(f, g);
    }
  }

  method DoRead(sfs: SfsFs, op: Op) returns (r: Reply)
    requires Good(sfs) && op.Read? && Holds(AbsOf(sfs), op.ino)
    modifies sfs`disk, sfs`vnodes, sfs`owner, sfs.freemap.v
    ensures Good(sfs) && AbsStep(sfs.nblocks, old(AbsOf(sfs)), op, r, AbsOf(sfs))
  {
    hide TreeOk, Names, SfsFs.Valid, SfsFs.Files, SfsFs.Settled, Tidy, Delivered, Contents, Zeros;
    ghost var f := sfs.Files();
    var u := new Uio(Zeros(op.len), op.off, true);
    ghost var u0 := u.State();
    assert op.ino in sfs.vnodes;
    var e := SfsIo.Read(sfs, op.ino, u);
    ReadSim(f[op.ino], op.off, op.len, u0, u.State());
    r := Reply(e, 0, u.kbuf[..op.len - u.resid], op.len - u.resid);
  }

  lemma ReadSim(img: Img, off: nat, len: nat, u0: UioState, u1: UioState)
    requires u0 == UioState(Zeros(len), 0, len, off, len) && u1.resid <= len
    requires Delivered(img, u0, u1, len - u1.resid)
    ensures |u1.kbuf| == len && u1.offset == off + (len - u1.resid)
    ensures off < |Contents(img)| ==> off + (len - u1.resid) <= |Contents(img)|
    ensures var m := len - u1.resid; var s := Contents(img);
            && u1.kbuf[..m] == (if off >= |s| then [] else s[off..off + m])
            && (m == Available(img, u0) && off < |s| ==> off + m == Min(off + len, |s|))
            && (off + Available(img, u0) > 73216 && off < |s| ==> Min(off + len, |s|) > 73216)
  {
    hide Contents, Zeros;
  }

  method DoWrite(sfs: SfsFs, op: Op) returns (r: Reply)
    requires Good(sfs) && op.Write? && Holds(AbsOf(sfs), op.ino) && op.off + |op.bytes| <= OFF_MAX
    modifies sfs`disk, sfs`vnodes, sfs`owner, sfs.freemap.v
    ensures Good(sfs) && AbsStep(sfs.nblocks, old(AbsOf(sfs)), op, r, AbsOf(sfs))
  {
    hide TreeOk, Names, SfsFs.Valid, SfsFs.Files, SfsFs.Settled, Tidy, Wrote, Contents, FlatWrite, OneMappedBlock, Crowded, SlotsMapped,
      Grown, RootKept;
    ghost var f, c, o := sfs.Files(), sfs.Counts(), sfs.owner;
    var u := new Uio(op.bytes, op.off, false);
    ghost var u0 := u.State();
    assert op.ino in sfs.vnodes;
    var e := SfsIo.Write(sfs, op.ino, u);
    r := Reply(e, 0, [], |op.bytes| - u.resid);
    WriteSim(f, c, sfs.Files(), op.ino, u0, u.State(), op.off, op.bytes);
    GrownKeepsRoot(o, sfs.owner, op.ino, op.off / 512, Reach(u0, false));
    SlotsStayMapped(f, o, sfs.Files(), sfs.owner);
    if e == ENOSPC { NoRoom(sfs); }
  }

  lemma WriteSim(f: Files, c: Counts, g: Files, j: nat, u0: UioState, u1: UioState, off: nat, bytes: seq<Byte>)
    requires TreeOk(f, c) && Tidy(f) && j != 1
    requires u0 == UioState(bytes, 0, |bytes|, off, |bytes|) && u1.resid <= |bytes|
    requires Wrote(f, g, j, u0, u1, |bytes| - u1.resid)
    requires u1.resid < |bytes| ==> u1.offset <= 73216
    ensures TreeOk(g, c) && Tidy(g) && Names(g) == Names(f) && u1.offset == off + (|bytes| - u1.resid)
    ensures j in f && DataOf(g) == DataOf(f)[j := FlatWrite(Contents(f[j]), off, bytes[..|bytes| - u1.resid])]
    ensures |g| == |DataOf(f)| + 1 && 1 in f && 1 in g && g[1] == f[1]
  {
    hide TreeOk, Names, Contents, FlatWrite, Overlay, ZeroTail;
    TreeFacts(f, c);
    var d := bytes[..|bytes| - u1.resid];
    WriteIsFlat(f[j], off, d);
    ContentKeepsTree(f, c, j, WriteImg(f[j], off, d));
    assert DataOf(g) == DataOf(f)[j := FlatWrite(Contents(f[j]), off, d)];
    SameCount(f, c, g);
  }

  lemma SameCount(f: Files, c: Counts, g: Files)
    requires TreeOk(f, c) && g.Keys == f.Keys
    ensures |g| == |DataOf(f)| + 1
  {
    hide TreeOk;
    TreeFacts(f, c);
    FileCount(f);
  }

  // Truncation to 0, the only length the kernel's callers use.
  method DoErase(sfs: SfsFs, op: Op) returns (r: Reply)
    requires Good(sfs) && op.Erase? && Holds(AbsOf(sfs), op.ino)
    modifies sfs`disk, sfs`vnodes, sfs`owner, sfs.freemap.v
    ensures Good(sfs) && AbsStep(sfs.nblocks, old(AbsOf(sfs)), op, r, AbsOf(sfs))
  {
    hide TreeOk, Names, SfsFs.Valid, SfsFs.Files, SfsFs.Settled, Tidy, Contents, TruncateImg, PointersCut, Released, SlotsMapped,
      RootKept, BlockLen;
    ghost var f, c, o := sfs.Files(), sfs.Counts(), sfs.owner;
    assert op.ino in sfs.vnodes;
    EraseKeepsRoot(sfs, op.ino);
    TreeFacts(f, c);
    TruncateFile(sfs, op.ino, 0);
    SlotsStayMapped(f, o, sfs.Files(), sfs.owner);
    EraseSim(f, c, op.ino);
    r := Reply(Ok, 0, [], 0);
  }

  lemma EraseKeepsRoot(sfs: SfsFs, j: nat)
    requires sfs.Valid() && j in sfs.vnodes && j != 1
    ensures RootKept(sfs.owner, sfs.owner - Released(sfs.View(), j, BlockLen(0)))
  {
    hide Inv, Bitmap.Bits, Bitmap.Valid, Released, BlockLen;
    VnodeLive(sfs.View(), sfs.owner, j);
    ReleasedOfFile(sfs.View(), sfs.owner, j);
  }

  lemma EraseSim(f: Files, c: Counts, j: nat)
    requires TreeOk(f, c) && Tidy(f) && j != 1 && j in f
    ensures var g := f[j := TruncateImg(f[j], 0)];
            TreeOk(g, c) && Tidy(g) && Names(g) == Names(f) && DataOf(g) == DataOf(f)[j := []]
  {
    hide TreeOk, Names, Contents, ZeroTail, TruncateImg;
    var img := TruncateImg(f[j], 0);
    ErasedImage(f[j]);
    ContentKeepsTree(f, c, j, img);
    assert DataOf(f[j := img]) == DataOf(f)[j := []];
  }

  lemma ErasedImage(img: Img)
    requires ZeroTail(img)
    ensures var t := TruncateImg(img, 0);
            t.kind == img.kind && t.links == img.links && Contents(t) == [] && ZeroTail(t)
  {
    hide Contents, ZeroTail, CutBlocks;
    TruncateToZero(img);
    TruncateTail(img, 0);
  }

  method DoRelease(sfs: SfsFs, op: Op) returns (r: Reply)
    requires Good(sfs) && op.Release? && Droppable(AbsOf(sfs), op.ino)
    modifies sfs`disk, sfs`vnodes, sfs`owner, sfs.freemap.v
    ensures Good(sfs) && AbsStep(sfs.nblocks, old(AbsOf(sfs)), op, r, AbsOf(sfs))
  {
    hide TreeOk, Names, SfsFs.Valid, SfsFs.Files, SfsFs.Counts, SfsFs.Settled, Prune, SlotsMapped;
    ghost var f, c := sfs.Files(), sfs.Counts();
    TreeFacts(f, c);
    GiveUp(sfs, op.ino);
    assert Within(f, sfs.Files());
    WithinTidy(f, sfs.Files());
    PruneTo(f, sfs.Files(), sfs.Counts());
    r := Reply(Ok, 0, [], 0);
  }

  // ---- Runs ----

  // What the layers above see to before calling in: a name is a string, and a file is in
  // hand. The operations table of a directory has no read, write or truncate.
  predicate Permitted(a: Abs, op: Op) {
    match op
    case Creat(n, _) => IsName(n)
    case Link(n, j) => IsName(n) && j in a.refs
    case Lookup(n) => IsName(n)
    case Remove(n) => IsName(n)
    case Rename(n1, n2) => IsName(n1) && IsName(n2)
    case Read(j, _, _) => Holds(a, j)
    case Write(j, off, d) => Holds(a, j) && off + |d| <= OFF_MAX
    case Erase(j) => Holds(a, j)
    case Release(j) => Droppable(a, j)
  }

  // One step of a run: a refused call changes nothing.
  ghost predicate RunStep(n: nat, a: Abs, op: Op, r: Reply, b: Abs) {
    if Permitted(a, op) then AbsStep(n, a, op, r, b) else b == a
  }

  // The references to inode j.
  method InHand(sfs: SfsFs, j: nat) returns (n: nat)
    requires Good(sfs)
    ensures j in AbsOf(sfs).refs <==> n > 0
    ensures n > 0 ==> n == AbsOf(sfs).refs[j] && (j != 1 ==> Holds(AbsOf(sfs), j))
  {
    hide TreeOk, Names, SfsFs.Valid, SfsFs.Settled, Tidy, Images;
    TreeFacts(sfs.Files(), sfs.Counts());
    n := if j in sfs.vnodes then sfs.vnodes[j].refcount else 0;
  }

  // No step of the specification is a failed assertion.
  lemma StepAnswers(n: nat, a: Abs, op: Op, r: Reply, b: Abs)
    requires AbsStep(n, a, op, r, b)
    ensures r.err != AssertionFailed
  {
    hide Crowded, Prune, FlatWrite, Incremented;
  }

  method Perform(sfs: SfsFs, op: Op) returns (r: Reply)
    requires Good(sfs)
    modifies sfs`disk, sfs`vnodes, sfs`owner, sfs.freemap.v
    ensures r.err == AssertionFailed <==> Halts(old(AbsOf(sfs)), op)
    ensures r.err != AssertionFailed ==> Good(sfs) && RunStep(sfs.nblocks, old(AbsOf(sfs)), op, r, AbsOf(sfs))
  {
    hide AbsStep, Good, AbsOf;
    r := Reply(EINVAL, 0, [], 0);
    match op {
      case Creat(n, _) =>
        if IsName(n) { r := DoCreat(sfs, op); }
      case Link(n, j) =>
        var held := InHand(sfs, j);
        if held > 0 && IsName(n) { r := DoLink(sfs, op); }
      case Lookup(n) =>
        if IsName(n) { r := DoLookup(sfs, op); }
      case Remove(n) =>
        if IsName(n) { r := DoRemove(sfs, op); }
      case Rename(n1, n2) =>
        if IsName(n1) && IsName(n2) { r := DoRename(sfs, op); }
      case Read(j, _, _) =>
        var held := InHand(sfs, j);
        if j != 1 && held > 0 { r := DoRead(sfs, op); }
      case Write(j, off, d) =>
        var held := InHand(sfs, j);
        if j != 1 && held > 0 && off + |d| <= OFF_MAX { r := DoWrite(sfs, op); }
      case Erase(j) =>
        var held := InHand(sfs, j);
        if j != 1 && held > 0 { r := DoErase(sfs, op); }
      case Release(j) =>
        var held := InHand(sfs, j);
        if held > 0 && (j == 1 ==> held > 1) { r := DoRelease(sfs, op); }
    }
    if !op.Rename? && Permitted(old(AbsOf(sfs)), op) { StepAnswers(sfs.nblocks, old(AbsOf(sfs)), op, r, AbsOf(sfs)); }
  }

  // The abstract states a run passes through, on a disk of n blocks.
  ghost predicate IsRun(n: nat, trace: seq<Abs>, ops: seq<Op>, replies: seq<Reply>) {
    && |trace| == |ops| + 1 && |replies| == |ops|
    && (forall i :: 0 <= i < |ops| ==> !Halts(trace[i], ops[i]) && RunStep(n, trace[i], ops[i], replies[i], trace[i + 1]))
  }

  lemma RunExtended(n: nat, trace: seq<Abs>, ops: seq<Op>, replies: seq<Reply>, op: Op, r: Reply, b: Abs)
    requires IsRun(n, trace, ops, replies) && !Halts(trace[|ops|], op) && RunStep(n, trace[|ops|], op, r, b)
    ensures IsRun(n, trace + [b], ops + [op], replies + [r])
  {
    hide RunStep, Halts;
  }

  // Calls in sequence on a mounted filesystem, up to the one that fails an assertion.
  method Session(sfs: SfsFs, ops: seq<Op>) returns (done: nat, replies: seq<Reply>, ghost trace: seq<Abs>)
    requires Good(sfs)
    modifies sfs`disk, sfs`vnodes, sfs`owner, sfs.freemap.v
    ensures done <= |ops| && IsRun(sfs.nblocks, trace, ops[..done], replies) && trace[0] == old(AbsOf(sfs))
    ensures done < |ops| ==> Halts(trace[done], ops[done])
    ensures done == |ops| ==> Good(sfs) && trace[done] == AbsOf(sfs)
  {
    hide RunStep, AbsOf, Good, Halts;
    done, replies, trace := 0, [], [AbsOf(sfs)];
    while done < |ops|
      invariant done <= |ops| && Good(sfs) && IsRun(sfs.nblocks, trace, ops[..done], replies)
      invariant trace[0] == old(AbsOf(sfs)) && trace[done] == AbsOf(sfs)
    {
      var r := Perform(sfs, ops[done]);
      if r.err == AssertionFailed {
        return;
      }
      RunExtended(sfs.nblocks, trace, ops[..done], replies, ops[done], r, AbsOf(sfs));
      assert ops[..done] + [ops[done]] == ops[..done + 1];
      replies, trace := replies + [r], trace + [AbsOf(sfs)];
      done := done + 1;
    }
  }

  // Every sequence of calls on a freshly formatted disk, whatever was on it, is a run of
  // the specification from the empty filesystem. It ends early exactly at a rename of a
  // name of the root directory.
  method Run(d: seq<Block>, volname: seq<Byte>, ops: seq<Op>) returns (done: nat, replies: seq<Reply>, ghost trace: seq<Abs>)
    requires Formattable(|d|) && |volname| < VOLNAME_SIZE
    ensures done <= |ops| && IsRun(|d|, trace, ops[..done], replies)
    ensures trace[0] == Abs(map[], map[], map[1 := 1])
    ensures done < |ops| ==> Halts(trace[done], ops[done])
  {
    hide AbsOf, Good, IsRun, NamesOf, Ready, SfsFs.Files, SfsFs.Counts, Formattable, Halts;
    var sfs := MakeAndMount(d, volname);
    FreshGood(sfs);
    done, replies, trace := Session(sfs, ops);
  }

  lemma FreshGood(sfs: SfsFs)
    requires Ready(sfs) && NamesOf(sfs) == map[] && sfs.Files().Keys == {1} && sfs.Counts() == map[1 := 1]
    ensures Good(sfs) && AbsOf(sfs) == Abs(map[], map[], map[1 := 1])
  {
    hide TreeOk, Names, SfsFs.Valid, SfsFs.Settled, SfsFs.Files, SfsFs.Counts;
    assert DataOf(sfs.Files()) == map[];
  }

  // ---- A name of the root directory ----

  // On a disk with room, a link to the root directory can be made, and renaming it then
  // fails the assertion.
  lemma RootRenameHalts(trace: seq<Abs>, n1: Name, n2: Name, replies: seq<Reply>)
    requires IsName(n1) && IsName(n2) && |n1| < 60
    requires IsRun(200, trace, [Link(n1, 1)], replies) && trace[0] == Abs(map[], map[], map[1 := 1])
    ensures replies[0].err == Ok && trace[1].names == map[n1 := 1] && Halts(trace[1], Rename(n1, n2))
  {
    var op := Link(n1, 1);
    assert !Halts(trace[0], op) && RunStep(200, trace[0], [op][0], replies[0], trace[1]);
    assert LinkStep(200, trace[0], op, replies[0], trace[1]);
  }

  method RenameRoot(d: seq<Block>, volname: seq<Byte>, n1: Name, n2: Name) returns (done: nat, replies: seq<Reply>)
    requires |d| == 200 && |volname| < VOLNAME_SIZE && IsName(n1) && IsName(n2) && |n1| < 60
    ensures done == 1 && |replies| == 1 && replies[0].err == Ok
  {
    hide RunStep;
    var ops := [Link(n1, 1), Rename(n1, n2)];
    ghost var trace;
    done, replies, trace := Run(d, volname, ops);
    assert !Halts(trace[0], ops[0]);
    assert trace[..2][0] == trace[0] && ops[..1] == [ops[0]];
    RunPrefix(200, trace, ops[..done], replies);
    RootRenameHalts(trace[..2], n1, n2, replies[..1]);
    assert Halts(trace[1], ops[1]);
  }

  lemma RunPrefix(n: nat, trace: seq<Abs>, ops: seq<Op>, replies: seq<Reply>)
    requires IsRun(n, trace, ops, replies) && |ops| > 0
    ensures IsRun(n, trace[..2], ops[..1], replies[..1])
  {
    hide RunStep, Halts;
  }
}
