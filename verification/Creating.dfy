/**
The creating commands keep a well-formed state exactly when the allocator's slot
is fresh and the new name is.
*/
module Creating {
  import opened CStrings
  import opened Names
  import opened Paths
  import opened Disk
  import opened Tree
  import opened Shrink
  import opened Grow
  import opened Relocate
  import opened Navigate

  /** Names that the 8.3 field holds and prints back. */
  predicate ValidName(n: cstring) {
    n != "" && Fits(n)
  }

  /** What n prints as once it is stored is not empty and not there yet. */
  predicate NewName(es: seq<Entry>, n: cstring) {
    Reprint(n) != "" && Find(es, Reprint(n)) == |es|
  }

  /** A valid name that a lookup does not find is new. */
  lemma ValidIsNew(es: seq<Entry>, n: cstring)
    requires ValidName(n) && Find(es, n) == |es|
    ensures NewName(es, n)
  {
    PrintsBack(n);
  }

  lemma NewEntryPrints(name: cstring, attributes: bv8, size: nat, c: Cluster)
    ensures NewEntry(name, attributes, size, c).Printed() == Reprint(name)
    ensures Fits(name) ==> NewEntry(name, attributes, size, c).Printed() == name
  {
    PrintsBack(name);
  }

  lemma GrowFrozen(d: Table, e: Table, p: Cluster, x: Entry)
    requires Grows(d, e, p, x) && Reach(d, p)
    ensures Frozen(d, e)
  {
    GrowReach(d, e, p, x);
  }

  /**
  Adding an entry under a name leaves a well-formed state exactly when its slot is
  fresh and the name is new.
  */
  lemma GrowKeeps(s: FS, t: FS, p: Cluster, name: cstring, x: Entry)
    requires Inv(s) && Grows(s.disk, t.disk, p, x) && t.cwd == s.cwd && t.path == s.path && Reach(s.disk, p)
    requires x.Printed() == Reprint(name) && (x.IsDir() ==> '/' !in name)
    ensures Inv(t) <==> Fresh(s.disk, x) && NewName(Entries(s.disk, p), name)
    ensures NamesOk(t.disk) <==> NewName(Entries(s.disk, p), name)
    ensures Frozen(s.disk, t.disk)
  {
    hide Find;
    hide Reprint;
    assert DotsAt(s.disk, p);
    if x.IsDir() { NoNewCharacter(name, '/'); }
    GrowStructure(s.disk, t.disk, p, x);
    GrowNamesExactly(s.disk, t.disk, p, x);
    GrowLocated(s, t, p, x);
    GrowFrozen(s.disk, t.disk, p, x);
  }

  /** No live directory entry names the slot the allocator would return. */
  ghost predicate FileSlotFresh(d: Table) {
    FreeCluster(d) != -1 ==> !DirNamed(d, FreeCluster(d))
  }

  /** No live entry at all names it. */
  ghost predicate DirSlotFresh(d: Table) {
    FreeCluster(d) != -1 ==> !Named(d, FreeCluster(d))
  }

  /** The two tables differ in times and dates only. */
  predicate Retimed(d: Table, e: Table) {
    forall c: Cluster :: (e[c].Dir? <==> d[c].Dir?) && |Entries(e, c)| == |Entries(d, c)|
      && forall i :: 0 <= i < |Entries(d, c)| ==>
           Entries(e, c)[i] == Entries(d, c)[i].(time := Entries(e, c)[i].time, date := Entries(e, c)[i].date)
  }

  lemma RetimeReach(d: Table, e: Table)
    requires Retimed(d, e)
    ensures forall x: Cluster :: Reach(e, x) ==> Reach(d, x)
  {
    forall p: Cluster, x: Cluster | HasDir(e, p, x) && Reach(d, p) ensures HasDir(d, p, x) {
      var i: nat :| ChildAt(e, p, i) && Entries(e, p)[i].IsDir() && Entries(e, p)[i].cluster == x;
      assert ChildAt(d, p, i);
    }
    FewerEdges(d, e);
  }

  lemma RetimeParents(d: Table, e: Table)
    requires ParentsOk(d) && Retimed(d, e) && forall x: Cluster :: Reach(e, x) ==> Reach(d, x)
    ensures ParentsOk(e)
  {
    hide Reach;
    assert forall p: Cluster, i: nat :: Live(e, p, i) ==> Live(d, p, i);
  }

  lemma RetimeDots(d: Table, e: Table)
    requires DotsOk(d) && Retimed(d, e) && forall x: Cluster :: Reach(e, x) ==> Reach(d, x)
    ensures DotsOk(e)
  {
    hide Reach;
    forall c: Cluster | Reach(e, c) && e[c].Dir? ensures DotsAt(e, c) {
      assert DotsAt(d, c);
    }
  }

  lemma RetimeStructure(d: Table, e: Table)
    requires Structure(d) && Retimed(d, e) && forall x: Cluster :: Reach(e, x) ==> Reach(d, x)
    ensures Structure(e)
  {
    RetimeDots(d, e);
    RetimeParents(d, e);
    hide DotsOk;
    hide ParentsOk;
    hide Reach;
    assert forall p: Cluster, i: nat :: Live(e, p, i) ==> Live(d, p, i);
  }

  lemma RetimeFrozen(d: Table, e: Table, c: Cluster)
    requires Reach(d, c) && forall x: Cluster :: x != c ==> e[x] == d[x]
    requires forall x: Cluster :: Reach(e, x) ==> Reach(d, x)
    ensures Frozen(d, e)
  {
    hide Reach;
  }

  lemma RetimeNames(d: Table, e: Table)
    requires NamesOk(d) && Retimed(d, e) && forall x: Cluster :: Reach(e, x) ==> Reach(d, x)
    ensures NamesOk(e)
  {
    forall c: Cluster | Reach(e, c) ensures Distinct(Entries(e, c)) {
      assert Distinct(Entries(d, c));
    }
    assert forall p: Cluster, i: nat :: Live(e, p, i) ==> Live(d, p, i);
  }

  lemma RetimeLocated(s: FS, t: FS)
    requires Located(s) && Retimed(s.disk, t.disk) && t.cwd == s.cwd && t.path == s.path
    ensures Located(t)
  {
    var cs, ch :| TrailTo(s, cs, ch);
    forall m | 0 <= m < |cs| ensures Into(t.disk, ch[m], cs[m], ch[m + 1]) {
      assert Into(s.disk, ch[m], cs[m], ch[m + 1]);
      FindSamePrinted(Entries(s.disk, ch[m]), Entries(t.disk, ch[m]), cs[m]);
    }
    LocatedBy(t, cs, ch);
  }

  lemma TouchRetimes(d: Table, c: Cluster, i: nat, x: Entry)
    requires i < |Entries(d, c)| && x == Entries(d, c)[i].(time := x.time, date := x.date)
    ensures Retimed(d, SetEntry(d, c, i, x)) && Retimed(SetEntry(d, c, i, x), d)
  {
    var e := SetEntry(d, c, i, x);
    assert Entries(e, c) == Entries(d, c)[i := x];
  }

  /** Giving an entry a new time changes nothing that matters. */
  lemma TouchOldKeeps(s: FS, i: nat)
    requires Inv(s) && i < |s.Here()|
    ensures Keeps(s, s.(disk := SetEntry(s.disk, s.cwd, i, s.Here()[i].(time := FAKE_TIME, date := FAKE_DATE))))
  {
    hide Structure;
    hide NamesOk;
    hide Located;
    hide Reach;
    hide Retimed;
    var d, x := s.disk, s.Here()[i].(time := FAKE_TIME, date := FAKE_DATE);
    var e := SetEntry(d, s.cwd, i, x);
    TouchRetimes(d, s.cwd, i, x);
    CwdReached(s);
    RetimeReach(d, e);
    RetimeReach(e, d);
    RetimeStructure(d, e);
    RetimeNames(d, e);
    RetimeLocated(s, s.(disk := e));
    RetimeFrozen(d, e, s.cwd);
  }

  /** In any state touch succeeds exactly when the name is there, or there is room for a twentieth entry and a slot. */
  lemma TouchSucceeds(s: FS, name: cstring)
    ensures Touch(s, name).1 <==> HasName(s.Here(), name) || (|s.Here()| < 20 && SlotLeft(s.disk))
    ensures !Touch(s, name).1 ==> Touch(s, name).0 == s
  {
    hide Find;
    hide HasName;
    hide SlotLeft;
    hide FreeCluster;
    FindsName(s.Here(), name);
    FindsSlot(s.disk);
  }

  /** touch of a name that is there gives the first such entry the fixed time and date and changes nothing else. */
  lemma TouchUpdates(s: FS, name: cstring)
    requires HasName(s.Here(), name)
    ensures var t, i := Touch(s, name).0, Find(s.Here(), name);
            && i < |s.Here()| == |t.Here()|
            && (forall k :: 0 <= k < |s.Here()| ==>
                  t.Here()[k] == if k == i then s.Here()[k].(time := 0x5000, date := 0x4D58) else s.Here()[k])
            && (forall x: Cluster :: x != s.cwd ==> t.disk[x] == s.disk[x])
            && t == s.(disk := t.disk)
  {
    hide Find;
    hide HasName;
    FindsName(s.Here(), name);
  }

  /** touch of another name adds an empty file at the end, under the lowest free slot. */
  lemma TouchAdds(s: FS, name: cstring)
    requires !HasName(s.Here(), name) && |s.Here()| < 20 && SlotLeft(s.disk)
    ensures var t, c := Touch(s, name).0, FreeCluster(s.disk);
            && c != -1
            && |t.Here()| == |s.Here()| + 1 && t.Here()[..|s.Here()|] == s.Here()
            && (var x := t.Here()[|s.Here()|];
                x.Printed() == Reprint(name) && !x.IsDir() && x.size == 0 && x.cluster == c
                && x.time == 0x5000 && x.date == 0x4D58)
            && (forall x: Cluster :: x != s.cwd ==> t.disk[x] == s.disk[x])
            && t == s.(disk := t.disk, content := s.content[c := ""])
  {
    hide Find;
    hide HasName;
    hide SlotLeft;
    hide FreeCluster;
    hide Reprint;
    FindsName(s.Here(), name);
    FindsSlot(s.disk);
    NewEntryPrints(name, 0, 0, FreeCluster(s.disk));
  }

  /**
  touch leaves a well-formed state exactly when what it creates has a new name and
  a slot no directory entry names.
  */
  lemma TouchKeeps(s: FS, name: cstring)
    requires Inv(s) && s.disk[s.cwd].Dir?
    ensures Inv(Touch(s, name).0) <==> (TouchCreates(s, name) ==> NewName(s.Here(), name) && FileSlotFresh(s.disk))
    ensures TouchCreates(s, name) ==> (NamesOk(Touch(s, name).0.disk) <==> NewName(s.Here(), name))
    ensures Frozen(s.disk, Touch(s, name).0.disk)
  {
    hide NewName;
    hide Find;
    hide Format;
    hide Structure;
    hide NamesOk;
    hide Located;
    hide DirNamed;
    var i := Find(s.Here(), name);
    CwdReached(s);
    if i < |s.Here()| {
      TouchOldKeeps(s, i);
    } else if TouchCreates(s, name) {
      var x := NewEntry(name, 0, 0, FreeCluster(s.disk));
      NewEntryPrints(name, 0, 0, FreeCluster(s.disk));
      GrowKeeps(s, Touch(s, name).0, s.cwd, name, x);
    }
  }

  /** A creating touch keeps the structure exactly when no live directory entry names the allocated slot. */
  lemma TouchStructure(s: FS, name: cstring)
    requires Inv(s) && s.disk[s.cwd].Dir? && TouchCreates(s, name)
    ensures Structure(Touch(s, name).0.disk) <==> !DirNamed(s.disk, FreeCluster(s.disk))
  {
    CwdReached(s);
    GrowStructure(s.disk, Touch(s, name).0.disk, s.cwd, NewEntry(name, 0, 0, FreeCluster(s.disk)));
  }

  // ---- mkdir ----

  /** A text with a slash does not look up a directory. */
  lemma NoDirHasSlash(d: Table, c: Cluster, p: cstring)
    requires Structure(d) && NamesOk(d) && Reach(d, c) && '/' in p
    ensures var i := Find(Entries(d, c), p); i < |Entries(d, c)| ==> !Entries(d, c)[i].IsDir()
  {
    var i := Find(Entries(d, c), p);
    SlashDiffers(p, "..");
    SlashDiffers(p, ".");
    if i < |Entries(d, c)| && Entries(d, c)[i].IsDir() {
      NotADot(d, c, p);
      SlashDiffers(p, Entries(d, c)[i].Printed());
    }
  }

  /**
  The parent text is "/" exactly for an argument whose only slash is its first
  character, and at the root for one without a slash.
  */
  lemma ParentIsRoot(s: FS, name: cstring)
    ensures MkdirParent(s, name) == "/" <==> if '/' in name then LastIndex(name, '/') == 0 else s.path == "/"
  {
    hide LastIndex;
    ParentAndName(name);
    if '/' in name {
      var i := LastIndex(name, '/');
      assert |ParentPath(name)| == i + 1;
      if i == 0 { assert name[..1] == [name[0]]; }
    }
  }

  /** The parent text always has a slash, no directory's printed name has one: only "/" is ever accepted. */
  lemma MkdirInRoot(s: FS, name: cstring)
    requires Inv(s)
    ensures ChangeDir(s, MkdirParent(s, name)).1 <==> MkdirParent(s, name) == "/"
    ensures MkdirParent(s, name) == "/" ==> ChangeDir(s, MkdirParent(s, name)).0.cwd == 0
  {
    var p := MkdirParent(s, name);
    PathAgrees(s);
    assert '/' in p;
    SlashDiffers(p, "..");
    SlashDiffers(p, ".");
    CwdReached(s);
    NoDirHasSlash(s.disk, s.cwd, p);
    SameEquivalence("/", p, "/");
    if Same(p, "/") { SameKeeps("/", p, 0, '/'); }
  }

  /** mkdir would add an entry: the parent is the root, the name is free there, a slot is left. */
  predicate MkdirCreates(s: FS, name: cstring) {
    && name != "" && MkdirParent(s, name) == "/" && FreeCluster(s.disk) != -1
    && Find(Entries(s.disk, 0), FileName(name)) == |Entries(s.disk, 0)|
  }

  lemma MkdirSucceeds(s: FS, name: cstring)
    requires Inv(s)
    ensures MakeDirectory(s, name).1 <==> MkdirCreates(s, name)
    ensures !MkdirCreates(s, name) ==> MakeDirectory(s, name).0 == s
  {
    hide Find;
    MkdirInRoot(s, name);
  }

  lemma MkdirTable(s: FS, name: cstring)
    requires Inv(s) && MkdirCreates(s, name)
    ensures var x := NewEntry(FileName(name), ATTR_DIRECTORY, 0, FreeCluster(s.disk));
            && Grows(s.disk, MakeDirectory(s, name).0.disk, 0, x)
            && x.Printed() == Reprint(FileName(name)) && x.IsDir() && x.size == 0 && x.cluster == FreeCluster(s.disk)
    ensures MakeDirectory(s, name) == (s.(disk := MakeDirectory(s, name).0.disk), true)
  {
    hide Find;
    MkdirInRoot(s, name);
    NewEntryPrints(FileName(name), ATTR_DIRECTORY, 0, FreeCluster(s.disk));
    hide ChangeDir;
    hide Reprint;
  }

  /**
  mkdir leaves a well-formed state exactly when what it creates has a new name and
  a slot no live entry names.
  */
  lemma MkdirKeeps(s: FS, name: cstring)
    requires Inv(s)
    ensures Inv(MakeDirectory(s, name).0) <==>
            (MkdirCreates(s, name) ==> NewName(Entries(s.disk, 0), FileName(name)) && DirSlotFresh(s.disk))
    ensures MkdirCreates(s, name) ==>
              (NamesOk(MakeDirectory(s, name).0.disk) <==> NewName(Entries(s.disk, 0), FileName(name)))
    ensures Frozen(s.disk, MakeDirectory(s, name).0.disk)
  {
    hide NewName;
    hide MakeDirectory;
    hide Find;
    MkdirSucceeds(s, name);
    if MkdirCreates(s, name) {
      var x := NewEntry(FileName(name), ATTR_DIRECTORY, 0, FreeCluster(s.disk));
      MkdirTable(s, name);
      RootReached(s.disk);
      NewEntryPrints(FileName(name), ATTR_DIRECTORY, 0, FreeCluster(s.disk));
      GrowKeeps(s, MakeDirectory(s, name).0, 0, FileName(name), x);
    }
  }

  lemma MkdirSlot(s: FS, name: cstring)
    requires MkdirCreates(s, name)
    ensures FreeCluster(s.disk) != -1
  {
  }

  /** A creating mkdir keeps it exactly when no live entry, file or directory, names the slot. */
  lemma MkdirStructure(s: FS, name: cstring)
    requires Inv(s) && MkdirCreates(s, name)
    ensures Structure(MakeDirectory(s, name).0.disk) <==> !Named(s.disk, FreeCluster(s.disk))
  {
    hide MkdirCreates;
    hide MakeDirectory;
    assert FreeCluster(s.disk) != -1 by { MkdirSlot(s, name); }
    var x := NewEntry(FileName(name), ATTR_DIRECTORY, 0, FreeCluster(s.disk));
    MkdirTable(s, name);
    RootReached(s.disk);
    GrowStructure(s.disk, MakeDirectory(s, name).0.disk, 0, x);
  }

  // ---- cp ----

  /** A file entry appended with the allocator's slot. */
  lemma FileGrows(d: Table, p: Cluster, name: cstring, attributes: bv8, size: nat)
    requires FreeCluster(d) != -1 && d[p].Dir?
    requires !NewEntry(name, attributes, size, FreeCluster(d)).IsDir()
    ensures var x := NewEntry(name, attributes, size, FreeCluster(d)); Grows(d, Append(d, p, x), p, x)
  {
  }

  /** The entry cp adds. */
  function Copied(s: FS, src: cstring, dst: cstring): Entry
    requires CopyCreates(s, src, dst)
  {
    var x := Entries(s.disk, Resolve(s, src).dir)[Resolve(s, src).index];
    NewEntry(FileName(dst), x.attributes, x.size, FreeCluster(s.disk))
  }

  /**
  In any state cp succeeds exactly when the source path leads to a file, the parent
  text of the destination leads somewhere, no entry there has the last name, and a
  slot is left.
  */
  lemma CpSucceeds(s: FS, src: cstring, dst: cstring)
    ensures CopyFile(s, src, dst).1 <==>
            && PathExists(s, src) && Resolve(s, src).At? && !Source(s, src).IsDir()
            && ParentExists(s, dst) && !HasName(Entries(s.disk, Destination(s, dst)), FileName(dst))
            && SlotLeft(s.disk)
    ensures !CopyFile(s, src, dst).1 ==> CopyFile(s, src, dst).0 == s
  {
    hide Find;
    hide Resolve;
    hide PathExists;
    hide ParentExists;
    hide Destination;
    hide HasName;
    hide SlotLeft;
    hide FreeCluster;
    ResolveMeans(s, src);
    DestinationResolves(s, dst);
    FindsSlot(s.disk);
    if ParentExists(s, dst) { FindsName(Entries(s.disk, Destination(s, dst)), FileName(dst)); }
  }

  /** A successful cp adds one file with the source's attributes and size, under the lowest free slot. */
  lemma CopyTable(s: FS, src: cstring, dst: cstring)
    requires Inv(s) && CopyCreates(s, src, dst)
    ensures var to, t, x := Resolve(s, ParentPath(dst)), CopyFile(s, src, dst).0, Copied(s, src, dst);
            && CopyFile(s, src, dst).1 && t == s.(disk := t.disk, content := t.content)
            && Reach(s.disk, to.dir) && Grows(s.disk, t.disk, to.dir, x)
    ensures var x := Copied(s, src, dst);
            && x.attributes == Source(s, src).attributes && x.size == Source(s, src).size
            && x.cluster == FreeCluster(s.disk) && x.Printed() == Reprint(FileName(dst)) && !x.IsDir()
  {
    ParentResolves(s, dst);
    var x := Source(s, src);
    NewEntryPrints(FileName(dst), x.attributes, x.size, FreeCluster(s.disk));
    hide Inv;
    hide Resolve;
    hide Reach;
    hide Find;
    hide Reprint;
    hide Format;
    FileGrows(s.disk, Resolve(s, ParentPath(dst)).dir, FileName(dst), x.attributes, x.size);
    hide Grows;
  }

  /**
  cp leaves a well-formed state exactly when what it creates has a new name and a
  slot no directory entry names.
  */
  lemma CopyKeeps(s: FS, src: cstring, dst: cstring)
    requires Inv(s)
    ensures var to := Resolve(s, ParentPath(dst));
            Inv(CopyFile(s, src, dst).0) <==>
            (CopyCreates(s, src, dst) ==> NewName(Entries(s.disk, to.dir), FileName(dst)) && FileSlotFresh(s.disk))
    ensures CopyCreates(s, src, dst) ==>
              var to := Resolve(s, ParentPath(dst));
              NamesOk(CopyFile(s, src, dst).0.disk) <==> NewName(Entries(s.disk, to.dir), FileName(dst))
    ensures Frozen(s.disk, CopyFile(s, src, dst).0.disk)
  {
    hide NewName;
    hide Resolve;
    hide Find;
    if CopyCreates(s, src, dst) {
      var to, x := Resolve(s, ParentPath(dst)), Copied(s, src, dst);
      CopyTable(s, src, dst);
      NewEntryPrints(FileName(dst), x.attributes, x.size, FreeCluster(s.disk));
      GrowKeeps(s, CopyFile(s, src, dst).0, to.dir, FileName(dst), x);
    }
  }

  /** A creating cp likewise. */
  lemma CopyStructure(s: FS, src: cstring, dst: cstring)
    requires Inv(s) && CopyCreates(s, src, dst)
    ensures Structure(CopyFile(s, src, dst).0.disk) <==> !DirNamed(s.disk, FreeCluster(s.disk))
  {
    CopyTable(s, src, dst);
    var to, x := Resolve(s, ParentPath(dst)), Copied(s, src, dst);
    GrowStructure(s.disk, CopyFile(s, src, dst).0.disk, to.dir, x);
  }
}
