// The invariant that ties the root directory to the files: one name per slot,
// link counts that count slots, and no unreferenced file without a link.
module SfsTree {
  import opened SfsLayout
  import opened SfsBlocks
  import opened SfsSteps
  import opened SfsBytes
  import opened SfsDir
  import opened SfsIo
  import opened SfsVnodeOps

  type Counts = map<nat, nat>

  // How many links inode j must have, given the directory.
  ghost function Expected(s: seq<Entry>, j: nat): nat {
    Links(s, j) + (if j == 1 then 1 else 0)
  }

  ghost predicate LinksCounted(f: Files, s: seq<Entry>) {
    forall j :: j in f ==> f[j].links == Expected(s, j)
  }

  ghost predicate NamesLead(f: Files, s: seq<Entry>) {
    forall i :: 0 <= i < |s| && s[i].ino != 0 ==> s[i].ino in f
  }

  ghost predicate KindsOk(f: Files) {
    && 0 !in f && 1 in f && DirOk(f[1])
    && (forall j :: j in f && j != 1 ==> f[j].kind == TYPE_FILE)
  }

  ghost predicate Reachable(f: Files, c: Counts) {
    && (forall j :: j in c ==> j in f && c[j] > 0)
    && (forall j :: j in f && j !in c ==> f[j].links > 0)
  }

  ghost predicate TreeOk(f: Files, c: Counts) {
    && KindsOk(f)
    && NamesUnique(Entries(f[1]))
    && NamesLead(f, Entries(f[1]))
    && LinksCounted(f, Entries(f[1]))
    && Reachable(f, c)
  }

  // The directory as a map, once the tree is in order.
  ghost function Names(f: Files): map<Name, nat> {
    if KindsOk(f) && NamesUnique(Entries(f[1])) then Directory(Entries(f[1])) else map[]
  }

  lemma TreeFacts(f: Files, c: Counts)
    requires TreeOk(f, c)
    ensures 0 !in f && 1 in f && DirOk(f[1]) && NamesUnique(Entries(f[1]))
    ensures Names(f) == Directory(Entries(f[1]))
    ensures forall j :: j in c ==> j in f && c[j] > 0
    ensures forall j :: j in f ==> f[j].kind == TYPE_FILE || f[j].kind == TYPE_DIR
    ensures forall j :: j in f ==> (f[j].kind == TYPE_DIR <==> j == 1)
    ensures f[1].links > 0
    ensures forall n :: n in Names(f) ==> Names(f)[n] in f && f[Names(f)[n]].links > 0
  {
    forall n | n in Names(f) ensures Names(f)[n] in f && f[Names(f)[n]].links > 0 {
      NameLeads(f, c, n);
    }
    hide Links, Directory, NamesLead, LinksCounted, Entries, NamesUnique;
  }

  lemma NameLeads(f: Files, c: Counts, n: Name)
    requires TreeOk(f, c) && n in Names(f)
    ensures Names(f)[n] in f && f[Names(f)[n]].links > 0
  {
    hide Reachable, KindsOk, Entries, Directory, NamesUnique, NamesLead, LinksCounted, Bound;
    KindFacts(f);
    SlotLeads(f, Entries(f[1]), n);
  }

  lemma SlotLeads(f: Files, s: seq<Entry>, n: Name)
    requires NamesUnique(s) && NamesLead(f, s) && LinksCounted(f, s) && n in Directory(s)
    ensures Directory(s)[n] in f && f[Directory(s)[n]].links > 0
  {
    hide Links, NamesUnique, Directory;
    assert Bound(s, n);
    var i :| 0 <= i < |s| && s[i].ino != 0 && s[i].name == n;
    LinksPositive(s, i);
  }

  // Changing the links of one inode.
  function Relinked(f: Files, j: nat, n: Half): Files
    requires j in f
  {
    f[j := f[j].(links := n)]
  }

  lemma RelinkedRoot(f: Files, j: nat, n: Half)
    requires j in f && 1 in f && DirOk(f[1])
    ensures DirOk(Relinked(f, j, n)[1]) && Entries(Relinked(f, j, n)[1]) == Entries(f[1])
  {
    hide DecodeEntry;
    assert Entries(Relinked(f, j, n)[1]) == Entries(f[1]);
  }

  // f with slot i of its directory set to e.
  ghost predicate SlotSet(f: Files, f1: Files, i: nat, e: Entry) {
    && 1 in f && DirOk(f[1]) && i <= |Entries(f[1])|
    && 1 in f1 && DirOk(f1[1]) && f1 == f[1 := f1[1]]
    && f1[1].links == f[1].links
    && Entries(f1[1]) == SetSlot(Entries(f[1]), i, e)
  }

  lemma LinkCount(f: Files, c: Counts, j: nat)
    requires TreeOk(f, c) && j in f
    ensures f[j].links <= 1145
  {
    LinksBound(Entries(f[1]), j);
  }

  lemma SlotSetFacts(f: Files, f1: Files, i: nat, e: Entry)
    requires SlotSet(f, f1, i, e)
    ensures forall j :: j in f1 <==> j in f
    ensures forall j :: j in f ==> f1[j].links == f[j].links
    ensures i <= |Entries(f[1])|
  {
  }

  lemma SlotKinds(f: Files, f1: Files, i: nat, e: Entry, j: nat, n: Half)
    requires KindsOk(f) && SlotSet(f, f1, i, e) && j in f
    ensures var f2 := Relinked(f1, j, n);
            && KindsOk(f2) && Entries(f2[1]) == SetSlot(Entries(f[1]), i, e)
            && (forall k :: k in f2 <==> k in f)
            && (forall k :: k in f && k != j ==> f2[k].links == f[k].links)
            && f2[j].links == n
  {
    hide SetSlot, Entries;
    RelinkedRoot(f1, j, n);
  }

  lemma LeadKept(f: Files, f2: Files, s: seq<Entry>, i: nat, e: Entry)
    requires NamesLead(f, s) && i <= |s| && (e.ino != 0 ==> e.ino in f)
    requires forall j :: j in f2 <==> j in f
    ensures NamesLead(f2, SetSlot(s, i, e))
  {
  }

  lemma SetInside(s: seq<Entry>, i: nat, e: Entry)
    requires i < |s|
    ensures SetSlot(s, i, e) == s[i := e]
  {
  }

  // ---- Adding a link ----

  lemma LinkCounts(f: Files, f1: Files, i: nat, e: Entry)
    requires SlotSet(f, f1, i, e) && LinksCounted(f, Entries(f[1])) && e.ino in f && e.ino != 0
    requires i < |Entries(f[1])| ==> Entries(f[1])[i].ino == 0
    requires 0 !in f && f[e.ino].links < 65535
    ensures LinksCounted(Relinked(f1, e.ino, f1[e.ino].links + 1), SetSlot(Entries(f[1]), i, e))
  {
    hide Entries, Links, SetSlot;
    var s := Entries(f[1]);
    var f2 := Relinked(f1, e.ino, f1[e.ino].links + 1);
    forall j | j in f2 ensures f2[j].links == Expected(SetSlot(s, i, e), j) {
      LinksSet(s, i, e, j);
    }
  }

  // Binding a free name to an existing inode and counting the link keeps the tree.
  lemma LinkKeepsTree(f: Files, c: Counts, f1: Files, i: nat, e: Entry)
    requires TreeOk(f, c) && SlotSet(f, f1, i, e) && e.ino in f && e.ino != 0
    requires i < |Entries(f[1])| ==> Entries(f[1])[i].ino == 0
    requires e.name !in Names(f) && f[e.ino].links < 65535
    ensures TreeOk(Relinked(f1, e.ino, f1[e.ino].links + 1), c)
    ensures Names(Relinked(f1, e.ino, f1[e.ino].links + 1)) == Names(f)[e.name := e.ino]
  {
    hide Directory, Links, Entries, NamesUnique, LinksCounted, SlotSet, Relinked, SetSlot;
    SlotSetFacts(f, f1, i, e);
    var s := Entries(f[1]);
    var f2 := Relinked(f1, e.ino, f1[e.ino].links + 1);
    BindSlot(s, i, e);
    SlotKinds(f, f1, i, e, e.ino, f1[e.ino].links + 1);
    LinkCounts(f, f1, i, e);
    LeadKept(f, f2, s, i, e);
  }

  // ---- Removing a link ----

  lemma UnlinkCounts(f: Files, f1: Files, i: nat, e: Entry, v: nat)
    requires SlotSet(f, f1, i, e) && LinksCounted(f, Entries(f[1])) && e.ino == 0 && i < |Entries(f[1])|
    requires Entries(f[1])[i].ino == v && v in f && 0 !in f
    ensures f1[v].links > 0
    ensures LinksCounted(Relinked(f1, v, f1[v].links - 1), SetSlot(Entries(f[1]), i, e))
  {
    hide Entries, Links, SetSlot;
    var s := Entries(f[1]);
    LinksPositive(s, i);
    var f2 := Relinked(f1, v, f1[v].links - 1);
    forall j | j in f2 ensures f2[j].links == Expected(SetSlot(s, i, e), j) {
      LinksSet(s, i, e, j);
    }
  }

  // Clearing a slot and uncounting the link keeps the tree while the file is referenced.
  lemma UnlinkKeepsTree(f: Files, c: Counts, f1: Files, i: nat, e: Entry, v: nat)
    requires TreeOk(f, c) && SlotSet(f, f1, i, e) && e.ino == 0 && i < |Entries(f[1])|
    requires 0 != Entries(f[1])[i].ino == v && v in c
    ensures v in f1 && f1[v].links > 0
    ensures TreeOk(Relinked(f1, v, f1[v].links - 1), c)
    ensures Names(Relinked(f1, v, f1[v].links - 1)) == Names(f) - {Entries(f[1])[i].name}
  {
    hide Directory, Links, Entries, NamesUnique, LinksCounted, SlotSet, Relinked, SetSlot, KindsOk, NamesLead, Reachable;
    KindFacts(f);
    SlotSetFacts(f, f1, i, e);
    ReferencedLives(f, c, v);
    var s := Entries(f[1]);
    UnlinkCounts(f, f1, i, e, v);
    var f2 := Relinked(f1, v, f1[v].links - 1);
    UnbindSlot(s, i, e);
    SlotKinds(f, f1, i, e, v, f1[v].links - 1);
    LeadKept(f, f2, s, i, e);
    SetInside(s, i, e);
    ReachableKept(f, f2, c, v);
  }

  lemma KindFacts(f: Files)
    requires KindsOk(f)
    ensures 0 !in f && 1 in f && DirOk(f[1])
  {
  }

  lemma ReferencedLives(f: Files, c: Counts, v: nat)
    requires Reachable(f, c) && v in c
    ensures v in f
  {
  }

  lemma ReachableKept(f: Files, f2: Files, c: Counts, v: nat)
    requires Reachable(f, c) && v in c && forall j :: j in f2 <==> j in f
    requires forall j :: j in f && j != v ==> f2[j].links == f[j].links
    ensures Reachable(f2, c)
  {
  }

  // ---- References ----

  lemma IncrementKeepsTree(f: Files, c: Counts, j: nat)
    requires TreeOk(f, c) && j in f
    ensures TreeOk(f, Incremented(c, j))
  {
    hide Entries, NamesUnique, LinksCounted, NamesLead;
  }

  // A file whose last reference goes is kept exactly when a name leads to it.
  lemma DropKeepsTree(f: Files, c: Counts, j: nat)
    requires TreeOk(f, c) && j in c
    ensures TreeOk(FilesAfterDrop(f, c, j), CountsAfterDrop(c, j))
    ensures Names(FilesAfterDrop(f, c, j)) == Names(f)
    ensures j in FilesAfterDrop(f, c, j) <==> c[j] > 1 || f[j].links > 0
  {
    hide Links, Directory;
    var s := Entries(f[1]);
    if c[j] == 1 && f[j].links == 0 {
      var f2 := f - {j};
      assert Links(s, j) == 0 && j != 1;
      forall i | 0 <= i < |s| && s[i].ino != 0 ensures s[i].ino in f2 {
        LinksPositive(s, i);
      }
    }
  }

  // ---- New objects and changed contents ----

  lemma NewObjectKeepsTree(f: Files, c: Counts, ino: nat)
    requires TreeOk(f, c) && ino !in f && ino != 0
    ensures TreeOk(f[ino := EmptyImg(TYPE_FILE)], c[ino := 1])
    ensures Names(f[ino := EmptyImg(TYPE_FILE)]) == Names(f)
  {
    hide Links, Directory, EmptyImg, NamesUnique;
    EmptyMeta(TYPE_FILE);
    var s := Entries(f[1]);
    forall i | 0 <= i < |s| ensures s[i].ino != ino {}
    LinksNone(s, ino);
  }

  lemma EmptyMeta(kind: Half)
    ensures EmptyImg(kind).kind == kind && EmptyImg(kind).links == 0 && EmptyImg(kind).size == 0
  {
  }

  lemma ContentKeepsTree(f: Files, c: Counts, j: nat, img: Img)
    requires TreeOk(f, c) && j in f && j != 1 && img.kind == f[j].kind && img.links == f[j].links
    ensures TreeOk(f[j := img], c) && Names(f[j := img]) == Names(f)
  {
    hide Links, Directory, NamesUnique;
  }
}
