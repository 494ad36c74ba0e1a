/**
What the runs can do, and inputs that show each reported failure: for any
well-formed state that fits, and then at boot.
*/
module Witnesses {
  import opened CStrings
  import opened Names
  import opened Paths
  import opened Disk
  import opened Tree
  import opened Shrink
  import opened Grow
  import opened Relocate
  import opened Navigate
  import opened Deleting
  import opened Creating
  import opened Moving
  import opened Stock
  import opened Initial
  import opened Boot
  import opened Runs

  // ---- directories can be made ----

  /** At boot, README.TXT without its entry: its slot is free and named by nothing. */
  lemma ReadmeGone(d: Table)
    requires d == Remove(BootTable()[4 := Empty], 0, 5)
    ensures FreeCluster(d) == 4 && !Named(d, 4)
  {
    var b := BootTable();
    BootTableIs(0);
    assert Shrinks(b, d, 0, 5);
    forall p: Cluster, i: nat | Live(d, p, i) ensures Entries(d, p)[i].cluster != 4 {
      LiveOrigin(b, d, 0, 5, p, i);
      BootTableIs(p);
      BootOwner(p, Origin(0, 5, p, i));
    }
  }

  lemma ReadmeFound()
    ensures Find(BootRoot(), Readme().Printed()) == 5
  {
    RootDistinct();
    hide Format;
    var name := Readme().Printed();
    assert BootRoot()[5] == Readme();
    SameEquivalence(name, name, name);
    FindUnique(BootRoot(), name, 5);
  }

  /** The boot state once README.TXT has been removed. */
  function WithoutReadme(content: Contents): FS {
    BootTableIs(0);
    FS(Remove(BootTable()[4 := Empty], 0, 5), content[4 := ""], 0, "/")
  }

  lemma ReadmeEntry(content: Contents)
    ensures BootState(content).Here() == BootRoot() && |BootRoot()| == 8
    ensures BootRoot()[5] == Readme() && Readme().cluster == 4 && !Readme().IsDir()
  {
    BootTableIs(0);
  }

  lemma RmReadme(content: Contents)
    ensures CwdSafe(BootState(content)) && Step(BootState(content), Rm(Readme().Printed())) == WithoutReadme(content)
  {
    hide Find;
    hide BootTable;
    hide BootRoot;
    hide Readme;
    hide Format;
    hide CwdSafe;
    hide Inv;
    BootInv(content);
    InvCwdSafe(BootState(content));
    ReadmeEntry(content);
    ReadmeFound();
    DeleteFound(BootState(content), Readme().Printed(), 5);
  }

  lemma StillFree(es: seq<Entry>, k: nat, name: cstring)
    requires k < |es| && Find(es, name) == |es|
    ensures Find(Without(es, k), name) == |Without(es, k)|
  {
    hide Find;
    hide Same;
    FindUnique(Without(es, k), name, |es| - 1);
  }

  lemma FreeName(content: Contents, name: cstring)
    requires Find(BootRoot(), name) == |BootRoot()|
    ensures var here := WithoutReadme(content).Here(); Find(here, name) == |here| && |here| >= 2
  {
    hide BootTable;
    hide BootRoot;
    hide Find;
    ReadmeEntry(content);
    StillFree(BootRoot(), 5, name);
    assert WithoutReadme(content).Here() == Without(BootRoot(), 5);
  }

  lemma RootMkdir(s: FS, name: cstring)
    requires s.path == "/" && name != "" && '/' !in name && FreeCluster(s.disk) == 4
    requires Find(Entries(s.disk, 0), name) == |Entries(s.disk, 0)|
    ensures MkdirCreates(s, name) && FileName(name) == name
  {
    NameAlone(name);
    hide Find;
  }

  lemma RunTwo(s: FS, a: Command, b: Command)
    requires CwdSafe(s) && Admissible(s, a) && CwdSafe(Step(s, a)) && Admissible(Step(s, a), b)
    ensures Run(s, [a, b], Step(Step(s, a), b))
  {
    hide CwdSafe;
    hide Admissible;
    hide Step;
    var t := Step(Step(s, a), b);
    assert [a, b][1..] == [b] && [b][1..] == [];
    assert Run(t, [], t);
    assert Run(Step(s, a), [b], t);
  }

  lemma MkdirAdmitted(s: FS, name: cstring)
    requires MkdirCreates(s, name) && ValidName(name) && FileName(name) == name && !Named(s.disk, FreeCluster(s.disk))
    ensures Admissible(s, Mkdir(name))
  {
    ValidIsNew(Entries(s.disk, 0), name);
  }

  lemma MadeInRoot(s: FS, t: FS, x: Entry)
    requires Grows(s.disk, t.disk, 0, x) && x.IsDir() && |Entries(s.disk, 0)| >= 2
    ensures HasDir(t.disk, 0, x.cluster)
  {
    assert ChildAt(t.disk, 0, |Entries(s.disk, 0)|);
  }

  /** Directories can be made in runs from boot: once README.TXT has been removed, the first one gets its slot. */
  lemma MkdirAfterRm(content: Contents, name: cstring)
    requires ValidName(name) && '/' !in name && Find(BootRoot(), name) == |BootRoot()|
    ensures exists t :: Run(BootState(content), [Rm(Readme().Printed()), Mkdir(name)], t) && HasDir(t.disk, 0, 4)
  {
    var s, r := BootState(content), WithoutReadme(content);
    var rm, mk := Rm(Readme().Printed()), Mkdir(name);
    hide Inv;
    hide CwdSafe;
    hide Find;
    hide MakeDirectory;
    hide Format;
    hide BootRoot;
    hide BootTable;
    RmReadme(content);
    ReadmeGone(r.disk);
    FreeName(content, name);
    RootMkdir(r, name);
    BootInv(content);
    StepKeeps(s, rm);
    InvCwdSafe(r);
    MkdirAdmitted(r, name);
    hide Admissible;
    RunTwo(s, rm, mk);
    MkdirTable(r, name);
    MadeInRoot(r, MakeDirectory(r, name).0, NewEntry(name, ATTR_DIRECTORY, 0, 4));
  }

  // ---- path texts ----

  /** "/w": an absolute path of one component. */
  lemma RootPath(w: cstring)
    requires w != "" && '/' !in w
    ensures var p := "/" + w;
            Absolute(p) && Components(p) == [w] && FileName(p) == w && ParentPath(p) == "/" && Components("/") == []
  {
    var p := "/" + w;
    SlashSeparates("", w);
    SingleComponent(w);
    assert "" + "/" + w == p;
    LastIndexUnique(p, '/', 0);
  }

  /** "/w/": the same component, but no last name. */
  lemma RootPathSlash(w: cstring)
    requires w != "" && '/' !in w
    ensures var p := "/" + w + "/"; Absolute(p) && Components(p) == [w] && FileName(p) == ""
  {
    var p := "/" + w + "/";
    RootPath(w);
    SlashesDoNotMatter("/" + w, "");
    LastIndexUnique(p, '/', |w| + 1);
  }

  /** "v/n", for any v: its parent text is "v/". */
  lemma LongPath(v: cstring, n: cstring)
    requires '/' !in n
    ensures var p := v + "/" + n; FileName(p) == n && ParentPath(p) == v + "/"
    ensures Components(v + "/") == Components(v)
  {
    var p := v + "/" + n;
    LastIndexUnique(p, '/', |v|);
    SlashesDoNotMatter(v, "");
  }

  /** A name in the root resolves to its entry there, with or without a slash after it. */
  lemma ResolvesInRoot(s: FS, w: cstring, p: cstring)
    requires Absolute(p) && Components(p) == [w] && Find(Entries(s.disk, 0), w) < |Entries(s.disk, 0)|
    ensures Resolve(s, p) == At(0, Find(Entries(s.disk, 0), w))
  {
    hide Find;
    hide Components;
    WalkOne(s.disk, 0, w);
  }

  lemma ResolvesRoot(s: FS)
    ensures Resolve(s, "/") == Whole(0)
  {
    hide Find;
    RootPath("x");
  }

  // ---- mv with a trailing slash ----

  /** In any well-formed state mv of "/w/" to a new name in the root doubles the entry w. */
  lemma SlashDoubles(s: FS, w: cstring, n: cstring, src: cstring, dst: cstring)
    requires src == "/" + w + "/" && dst == "/" + n
    requires Inv(s) && w != "" && '/' !in w && Find(Entries(s.disk, 0), w) < |Entries(s.disk, 0)|
    requires '/' !in n && ValidName(n) && Find(Entries(s.disk, 0), n) == |Entries(s.disk, 0)|
    ensures MoveCreates(s, src, dst) && EntryCount(MoveFile(s, src, dst).0.disk) == EntryCount(s.disk) + 1
  {
    RootPathSlash(w);
    RootPath(n);
    ResolvesInRoot(s, w, src);
    ResolvesRoot(s);
    ValidIsNew(Entries(s.disk, 0), n);
    hide Inv;
    hide Find;
    hide Resolve;
    hide Components;
    hide Reprint;
    hide MoveFile;
    hide EntryCount;
    MvDoubles(s, src, dst);
  }

  /** As a destination "/" is the empty name in the root, which is free and stays empty. */
  lemma SlashTarget(s: FS)
    requires Inv(s)
    ensures FileName("/") == "" && ParentPath("/") == "/" && Resolve(s, "/") == Whole(0) && Reprint("") == ""
    ensures Find(Entries(s.disk, 0), "") == |Entries(s.disk, 0)| && s.disk[0].Dir? && Reach(s.disk, 0)
  {
    hide Format;
    LastIndexUnique("/", '/', 0);
    ResolvesRoot(s);
    PrintsBack("");
    RootReached(s.disk);
    NoEmptyName(s, 0);
    FindUnique(Entries(s.disk, 0), "", |Entries(s.disk, 0)|);
  }

  /** mv of "/w/" to "/" does not: the new entry has an empty name and is the one that is removed. */
  lemma SlashToSlash(s: FS, w: cstring, src: cstring)
    requires src == "/" + w + "/"
    requires Inv(s) && w != "" && '/' !in w && Find(Entries(s.disk, 0), w) < |Entries(s.disk, 0)|
    ensures MoveCreates(s, src, "/") && EntryCount(MoveFile(s, src, "/").0.disk) == EntryCount(s.disk)
  {
    RootPathSlash(w);
    ResolvesInRoot(s, w, src);
    SlashTarget(s);
    hide Inv;
    hide Find;
    hide Resolve;
    hide Components;
    hide Reprint;
    hide MoveFile;
    hide EntryCount;
    MvDoubles(s, src, "/");
  }

  lemma RootFileNoDot(d: Table, w: cstring)
    requires Structure(d) && Find(Entries(d, 0), w) < |Entries(d, 0)| && !Entries(d, 0)[Find(Entries(d, 0), w)].IsDir()
    ensures !DotName(w)
  {
    hide Find;
    hide Format;
    RootReached(d);
    assert DotsAt(d, 0);
    DotsFound(d, 0, w);
  }

  /** mv of a file in the root to "/" leaves an entry with an empty name. */
  lemma EmptyNameLeft(s: FS, w: cstring, src: cstring)
    requires src == "/" + w
    requires Inv(s) && w != "" && '/' !in w && Find(Entries(s.disk, 0), w) < |Entries(s.disk, 0)|
    requires !Entries(s.disk, 0)[Find(Entries(s.disk, 0), w)].IsDir()
    ensures MoveCreates(s, src, "/")
    ensures var t := MoveFile(s, src, "/").0;
            |Entries(t.disk, 0)| > 2 && Entries(t.disk, 0)[|Entries(t.disk, 0)| - 1].Printed() == "" && !NamesOk(t.disk)
  {
    var i := Find(Entries(s.disk, 0), w);
    RootPath(w);
    ResolvesInRoot(s, w, src);
    SlashTarget(s);
    RootFileNoDot(s.disk, w);
    assert DotsAt(s.disk, 0);
    var t, y := MoveFile(s, src, "/").0, Arrived(s, src, "/");
    MoveTable(s, src, "/");
    ArrivedPrints(s, src, "/");
    hide Find;
    hide Resolve;
    hide Components;
    hide Reprint;
    hide MoveFile;
    hide Format;
    hide Moves;
    NewChildLast(s.disk, t.disk, 0, i, 0, y);
    MoveNamesExactly(s.disk, t.disk, 0, i, 0, y);
  }

  // ---- a name that is taken ----

  /** In any state mv and cp to a name the root has are refused, whatever the source is. */
  lemma OntoAnother(s: FS, src: cstring, v: cstring, dst: cstring)
    requires dst == "/" + v && v != "" && '/' !in v && HasName(Entries(s.disk, 0), v)
    ensures MoveFile(s, src, dst) == (s, false) && CopyFile(s, src, dst) == (s, false)
  {
    hide MoveFile;
    hide CopyFile;
    hide HasName;
    hide Components;
    hide Resolve;
    RootPath(v);
    MvSucceeds(s, src, dst);
    CpSucceeds(s, src, dst);
  }

  // ---- mv of the current directory into itself ----

  /** "./n" puts n into the current directory, which is the one "." is found in. */
  lemma HerePath(s: FS, n: cstring)
    requires Structure(s.disk) && Reach(s.disk, s.cwd) && s.disk[s.cwd].Dir? && '/' !in n
    ensures var dst := "./" + n;
            FileName(dst) == n && Resolve(s, ParentPath(dst)) == At(s.cwd, 0)
  {
    hide Find;
    hide Format;
    LongPath(".", n);
    SingleComponent(".");
    assert "." + "/" + n == "./" + n && "." + "/" == "./";
    assert DotsAt(s.disk, s.cwd);
    SameEquivalence(".", ".", ".");
    DotsFound(s.disk, s.cwd, ".");
    WalkOne(s.disk, s.cwd, ".");
  }

  lemma MovedIntoItself(s: FS, src: cstring, dst: cstring, i: nat)
    requires Inv(s) && MoveCreates(s, src, dst) && FileName(src) != "" && !DotName(FileName(src))
    requires Resolve(s, src) == At(0, i) && Resolve(s, ParentPath(dst)).dir == s.cwd != 0
    requires Source(s, src).IsDir() && Source(s, src).cluster == s.cwd && Above(s.disk, s.cwd, s.cwd)
    ensures var t := MoveFile(s, src, dst).0; !Located(t) && Reach(s.disk, s.cwd) && !Reach(t.disk, s.cwd)
  {
    var t, y := MoveFile(s, src, dst).0, Arrived(s, src, dst);
    MoveTable(s, src, dst);
    ArrivedPrints(s, src, dst);
    MvKeepsPath(s, src, dst);
    hide Resolve;
    hide Find;
    hide MoveFile;
    hide Moves;
    hide Reprint;
    hide Format;
    hide Located;
    hide Reach;
    hide Above;
    SubtreeLost(s.disk, t.disk, 0, i, s.cwd, y);
  }

  lemma RootChildNoDot(d: Table, w: cstring)
    requires Structure(d) && ChildAt(d, 0, Find(Entries(d, 0), w))
    ensures !DotName(w)
  {
    hide Find;
    hide Format;
    RootReached(d);
    assert DotsAt(d, 0);
    DotsFound(d, 0, w);
  }

  /** From inside directory w of the root, mv of "/w" to "./n" loses it and the current path. */
  lemma IntoItself(s: FS, w: cstring, n: cstring, src: cstring, dst: cstring)
    requires src == "/" + w && dst == "./" + n
    requires Inv(s) && s.cwd != 0 && s.disk[s.cwd].Dir? && w != "" && '/' !in w && Into(s.disk, 0, w, s.cwd)
    requires '/' !in n && Find(s.Here(), n) == |s.Here()|
    ensures MoveCreates(s, src, dst)
    ensures var t := MoveFile(s, src, dst).0; !Located(t) && Reach(s.disk, s.cwd) && !Reach(t.disk, s.cwd)
  {
    var i := Find(Entries(s.disk, 0), w);
    CwdReached(s);
    RootPath(w);
    ResolvesInRoot(s, w, src);
    HerePath(s, n);
    RootChildNoDot(s.disk, w);
    AboveSelf(s.disk, s.cwd);
    hide Inv;
    hide Find;
    hide Resolve;
    hide Components;
    hide Reprint;
    hide MoveFile;
    hide Format;
    hide Located;
    hide Reach;
    hide Above;
    assert MoveCreates(s, src, dst);
    MovedIntoItself(s, src, dst, i);
  }

  // ---- where a destination is ----

  /** A destination "/w/n" is in the root, which holds w, and not in w. */
  lemma LandsInRoot(s: FS, w: cstring, n: cstring)
    requires w != "" && '/' !in w && '/' !in n && Find(Entries(s.disk, 0), w) < |Entries(s.disk, 0)|
    ensures Resolve(s, ParentPath("/" + w + "/" + n)).At? && Resolve(s, ParentPath("/" + w + "/" + n)).dir == 0
  {
    LongPath("/" + w, n);
    RootPathSlash(w);
    ResolvesInRoot(s, w, "/" + w + "/");
  }

  // ---- touch of a long name ----

  /** A name without dot that is too long is cut. */
  lemma LongName(n: cstring)
    requires '.' !in n && ' ' !in n && |n| >= 8
    ensures Reprint(n) == n[..8]
  {
    var b: cstring, none: cstring := n[..8], "";
    NoDot(n);
    FormatPadded(b, none);
    assert Pad(n, 8) == Pad(b, 8);
  }

  lemma StillFreeAfter(es: seq<Entry>, x: Entry, n: cstring)
    requires Find(es, n) == |es| && |x.Printed()| != |n|
    ensures Find(es + [x], n) == |es + [x]|
  {
    hide Find;
    hide Format;
    FindUnique(es + [x], n, |es| + 1);
  }

  lemma FoundLast(es: seq<Entry>, x: Entry, n: cstring)
    requires Find(es, n) == |es| && x.Printed() == n
    ensures Find(es + [x], n) == |es| < |es + [x]|
  {
    hide Find;
    hide Format;
    SameEquivalence(n, n, n);
    FindUnique(es + [x], n, |es|);
  }

  lemma FreeSame(d: Table, e: Table)
    requires forall k: Cluster :: d[k].Dir? <==> e[k].Dir?
    ensures FreeCluster(d) == FreeCluster(e)
  {
    hide FreeCluster;
    var c, f := FreeCluster(d), FreeCluster(e);
    assert (c != -1 ==> e[c].Empty?) && (f != -1 ==> d[f].Empty?);
  }

  /** A file does not mark its slot: the next allocation returns it again. */
  lemma SlotStays(s: FS, n: cstring)
    requires s.disk[s.cwd].Dir? && TouchCreates(s, n)
    ensures FreeCluster(Touch(s, n).0.disk) == FreeCluster(s.disk)
  {
    hide Find;
    hide FreeCluster;
    TouchCreated(s, n);
    hide Touch;
    FreeSame(s.disk, Touch(s, n).0.disk);
  }

  /** touch of a nine-character name never finds what it made, and makes it again. */
  lemma TouchedTwice(s: FS, n: cstring)
    requires Inv(s) && s.disk[s.cwd].Dir? && FileSlotFresh(s.disk) && FreeCluster(s.disk) != -1 && |s.Here()| < 19
    requires '.' !in n && ' ' !in n && |n| == 9
    requires Find(s.Here(), n) == |s.Here()| && Find(s.Here(), n[..8]) == |s.Here()|
    ensures var t := Touch(s, n).0; var u := Touch(t, n).0; var k := |s.Here()|;
            && Inv(t) && !NamesOk(u.disk)
            && |u.Here()| == k + 2 && u.Here()[k].Printed() == u.Here()[k + 1].Printed() == n[..8]
  {
    var t, k := Touch(s, n).0, |s.Here()|;
    var x := NewEntry(n, 0, 0, FreeCluster(s.disk));
    LongName(n);
    NewEntryPrints(n, 0, 0, FreeCluster(s.disk));
    TouchKeeps(s, n);
    TouchCreated(s, n);
    assert t.Here() == s.Here() + [x];
    StillFreeAfter(s.Here(), x, n);
    FoundLast(s.Here(), x, n[..8]);
    SlotStays(s, n);
    NewEntryPrints(n, 0, 0, FreeCluster(t.disk));
    TouchKeeps(t, n);
    TouchCreated(t, n);
  }

  // ---- at boot ----

  /** Names of these lengths are not in the root, nor is any single character but the dot. */
  lemma Absent(n: cstring)
    requires (|n| == 1 && n[0] != '.') || |n| == 8 || |n| == 9
    ensures Find(BootRoot(), n) == |BootRoot()|
  {
    hide Format;
    hide Find;
    DotNames(0, 0);
    DirNames();
    RootFileNames();
    FindUnique(BootRoot(), n, |BootRoot()|);
  }

  lemma BinFound()
    ensures Find(BootRoot(), BinText()) == 2
  {
    hide Format;
    hide Find;
    DotNames(0, 0);
    EntryPrints(BinText(), "", Bin());
    SameEquivalence(BinText(), BinText(), BinText());
    FindUnique(BootRoot(), BinText(), 2);
  }

  lemma BootFacts(content: Contents)
    ensures var s := BootState(content);
            && s.cwd == 0 && s.path == "/" && s.Here() == Entries(s.disk, 0) == BootRoot() && |BootRoot()| == 8
            && s.disk[0].Dir? && s.disk[1].Dir? && Entries(s.disk, 1) == BootBin()
    ensures BootRoot()[2] == Bin() && Bin().IsDir() && Bin().cluster == 1
  {
    BootTableIs(0);
    BootTableIs(1);
  }

  lemma OneLetter(n: cstring)
    requires |n| == 1 && n[0] != '.' && n[0] != ' ' && n[0] != '/'
    ensures ValidName(n) && '/' !in n
  {
    NoDot(n);
  }

  /** mv /BIN/ /X doubles BIN. */
  lemma BootDoubles(content: Contents)
    ensures var s, src, dst := BootState(content), "/" + BinText() + "/", "/X";
            MoveCreates(s, src, dst) && EntryCount(MoveFile(s, src, dst).0.disk) == EntryCount(s.disk) + 1
  {
    hide BootTable;
    hide BootRoot;
    hide Find;
    hide MoveFile;
    hide MoveCreates;
    hide EntryCount;
    var n: cstring := "X";
    BootInv(content);
    BootFacts(content);
    BinFound();
    Absent(n);
    OneLetter(n);
    SlashDoubles(BootState(content), BinText(), n, "/" + BinText() + "/", "/X");
  }

  /** mv /BIN/ / does not. */
  lemma BootNotDoubled(content: Contents)
    ensures var s, src := BootState(content), "/" + BinText() + "/";
            MoveCreates(s, src, "/") && EntryCount(MoveFile(s, src, "/").0.disk) == EntryCount(s.disk)
  {
    hide BootTable;
    hide BootRoot;
    hide Find;
    hide MoveFile;
    hide MoveCreates;
    hide EntryCount;
    BootInv(content);
    BootFacts(content);
    BinFound();
    SlashToSlash(BootState(content), BinText(), "/" + BinText() + "/");
  }

  lemma ReadmeText()
    ensures Readme().Printed() != "" && '/' !in Readme().Printed()
  {
    FormatPadded(Initial.ReadmeText(), TxtText());
  }

  /** mv /README.TXT /BIN/R lands in the root, and mv /README.TXT / leaves an empty name there. */
  lemma BootDestinations(content: Contents, src: cstring, dst: cstring)
    requires src == "/" + Readme().Printed() && dst == "/" + BinText() + "/" + "R"
    ensures var r := Resolve(BootState(content), ParentPath(dst)); r.At? && r.dir == 0
    ensures MoveCreates(BootState(content), src, "/") && !NamesOk(MoveFile(BootState(content), src, "/").0.disk)
  {
    hide BootTable;
    hide BootRoot;
    hide Find;
    hide MoveFile;
    hide MoveCreates;
    hide Format;
    hide Resolve;
    var s := BootState(content);
    BootInv(content);
    BootFacts(content);
    BinFound();
    LandsInRoot(s, BinText(), "R");
    ReadmeEntry(content);
    ReadmeFound();
    ReadmeText();
    EmptyNameLeft(s, Readme().Printed(), src);
  }

  /** How the files in the root print. */
  lemma RootFilesPrint()
    ensures Readme().Printed() == "README.TXT" && Kernel().Printed() == "KERNEL.BIN"
    ensures License().Printed() == "LICENSE.TXT"
  {
    hide Format;
    FormatPadded(Initial.ReadmeText(), TxtText());
    FormatPadded(KernelText(), BinText());
    FormatPadded(LicenseText(), TxtText());
  }

  lemma KernelFound()
    ensures HasName(BootRoot(), Kernel().Printed())
  {
    hide Format;
    var name := Kernel().Printed();
    SameEquivalence(name, name, name);
    assert BootRoot()[6] == Kernel();
  }

  /** mv and cp of /README.TXT to /KERNEL.BIN are refused. */
  lemma BootRefused(content: Contents, src: cstring, dst: cstring)
    requires src == "/README.TXT" && dst == "/KERNEL.BIN"
    ensures var s := BootState(content); MoveFile(s, src, dst) == (s, false) && CopyFile(s, src, dst) == (s, false)
  {
    hide BootTable;
    hide BootRoot;
    hide MoveFile;
    hide CopyFile;
    hide Format;
    hide HasName;
    RootFilesPrint();
    KernelFound();
    BootFacts(content);
    var v: cstring := "KERNEL.BIN";
    OntoAnother(BootState(content), src, v, dst);
  }

  lemma RootEntries(content: Contents)
    ensures BootState(content).Here() == [Dot(0), DotDot(0), Bin(), Home(), Etc(), Readme(), Kernel(), License()]
  {
    BootTableIs(0);
  }

  /** Of the root's entries only README.TXT and LICENSE.TXT are files that end in ".TXT". */
  lemma TextsGo(suffix: cstring)
    requires suffix == ".TXT"
    ensures Goes(Readme(), Ending(suffix)) && Goes(License(), Ending(suffix)) && !Goes(Kernel(), Ending(suffix))
  {
    hide Format;
    RootFilesPrint();
    assert UpperChar(Kernel().Printed()[9]) != UpperChar(suffix[3]);
  }

  lemma DirStays(e: Entry, what: Selection)
    requires e.IsDir()
    ensures !Goes(e, what)
  {
  }

  lemma {:induction false} KeptAll(es: seq<Entry>, what: Selection)
    requires forall e :: e in es ==> e.IsDir()
    ensures Kept(es, what) == es && Taken(es, what) == 0
  {
    if es != [] {
      var rest, e := es[..|es| - 1], es[|es| - 1];
      DirStays(e, what);
      hide Goes;
      hide Entry.IsDir;
      KeptAll(rest, what);
      assert es == rest + [e];
    }
  }

  lemma KeptLast(es: seq<Entry>, e: Entry, what: Selection)
    ensures Kept(es + [e], what) == Kept(es, what) + if Goes(e, what) then [] else [e]
    ensures Taken(es + [e], what) == Taken(es, what) + if Goes(e, what) then 1 else 0
  {
    assert (es + [e])[..|es|] == es;
  }

  /** Deleting the files that end in ".TXT" leaves the directories and KERNEL.BIN. */
  lemma BootTextsGo(content: Contents, suffix: cstring)
    requires suffix == ".TXT"
    ensures var s := BootState(content);
            && DownSafe(s, Ending(suffix), |s.Here()|)
            && var (t, k) := DeleteFiles(s, Ending(suffix));
               t.Here() == [Dot(0), DotDot(0), Bin(), Home(), Etc(), Kernel()] && k == 2
  {
    hide BootTable;
    hide BootRoot;
    hide DeleteFiles;
    hide DownSafe;
    hide Goes;
    hide Inv;
    hide Format;
    var s, what := BootState(content), Ending(suffix);
    var dirs := [Dot(0), DotDot(0), Bin(), Home(), Etc()];
    BootInv(content);
    BulkIsFilter(s, what);
    RootEntries(content);
    TextsGo(suffix);
    KeptAll(dirs, what);
    KeptLast(dirs, Readme(), what);
    KeptLast(dirs + [Readme()], Kernel(), what);
    KeptLast(dirs + [Readme()] + [Kernel()], License(), what);
    assert s.Here() == dirs + [Readme()] + [Kernel()] + [License()];
  }

  lemma BinFiles()
    ensures |BootBin()| == 4 && forall x: Cluster :: FileInside(BootBin(), 2, x) <==> x == 7 || x == 8
  {
    var es := BootBin();
    assert es[2] == Shell() && es[3] == Init();
    assert !Shell().IsDir() && !Init().IsDir();
  }

  lemma BinApart()
    ensures !Same(BinText(), "/") && !Same(BinText(), ".") && !Same(BinText(), "..")
    ensures Bin().Printed() == BinText() && '/' !in BinText()
  {
    EntryPrints(BinText(), "", Bin());
  }

  /** rm of BIN needs force, and with it empties the contents of SHELL.EXE and INIT.EXE. */
  lemma BootRmBin(content: Contents)
    ensures var s := BootState(content);
            && CwdSafe(s)
            && DeleteDirectory(s, BinText(), false) == (s, false)
            && DeleteDirectory(s, BinText(), true).1
            && DeleteDirectory(s, BinText(), true).0.content == content[7 := ""][8 := ""]
  {
    hide BootTable;
    hide BootRoot;
    hide BootBin;
    hide BinText;
    hide Bin;
    hide Find;
    hide DeleteDirectory;
    hide CwdSafe;
    hide Inv;
    hide Same;
    hide FileInside;
    var s := BootState(content);
    BootInv(content);
    BootFacts(content);
    BinFound();
    BinApart();
    BinFiles();
    RmDirSucceeds(s, BinText(), false);
    RmDirSucceeds(s, BinText(), true);
    var t := DeleteDirectory(s, BinText(), true).0;
    forall x: Cluster ensures t.content[x] == content[7 := ""][8 := ""][x] {
      RmDirContents(s, BinText(), true, x);
    }
  }

  // ---- inside BIN ----

  function InBin(content: Contents): FS {
    ChangeDir(BootState(content), BinText()).0
  }

  lemma InBinIs(content: Contents)
    ensures var s := InBin(content);
            Inv(s) && s.cwd == 1 && s.path != "/" && s.disk == BootTable() && Into(s.disk, 0, BinText(), 1)
  {
    hide BootTable;
    hide BootRoot;
    hide BootBin;
    hide Bin;
    hide Find;
    hide Format;
    hide ChangeDir;
    hide Located;
    hide Structure;
    hide NamesOk;
    hide Same;
    hide Reach;
    hide Frozen;
    hide Extend;
    hide Shorten;
    hide Components;
    var b := BootState(content);
    BootInv(content);
    BootFacts(content);
    BinFound();
    BinApart();
    CdKeeps(b, BinText());
    PathEdits(b, Bin().Printed());
    CdMeans(b, BinText());
    var n: cstring := "x";
    RootPath(n);
  }

  lemma NotInBin(n: cstring)
    requires |n| == 1 && n[0] != '.'
    ensures Find(BootBin(), n) == |BootBin()| && '/' !in BinText()
  {
    hide Format;
    hide Find;
    DotNames(1, 0);
    LeafFileNames();
    FindUnique(BootBin(), n, |BootBin()|);
  }

  /** From inside BIN, mv /BIN ./X loses BIN and the current path. */
  lemma InBinLoses(content: Contents, src: cstring, dst: cstring)
    requires src == "/" + BinText() && dst == "./" + "X"
    ensures MoveCreates(InBin(content), src, dst)
    ensures var s := InBin(content); var t := MoveFile(s, src, dst).0;
            !Located(t) && Reach(s.disk, 1) && !Reach(t.disk, 1)
  {
    hide BootTable;
    hide BootRoot;
    hide BootBin;
    hide Find;
    hide MoveFile;
    hide MoveCreates;
    hide InBin;
    hide Inv;
    hide Located;
    hide Reach;
    var s, n: cstring := InBin(content), "X";
    InBinIs(content);
    BinApart();
    NotInBin(n);
    BootFacts(content);
    IntoItself(s, BinText(), n, src, dst);
  }

  /** There mkdir of any name without a slash is refused. */
  lemma InBinRefuses(content: Contents, name: cstring)
    requires '/' !in name
    ensures MakeDirectory(InBin(content), name) == (InBin(content), false)
  {
    hide BootTable;
    hide Find;
    hide MakeDirectory;
    hide InBin;
    InBinIs(content);
    MkdirSucceeds(InBin(content), name);
  }

  /** touch of a nine-character name, such as LONGNAME1, twice: two entries that print as its first eight. */
  lemma BootTouchedTwice(content: Contents, n: cstring)
    requires '.' !in n && ' ' !in n && |n| == 9
    ensures var t := Touch(BootState(content), n).0; var u := Touch(t, n).0;
            && Inv(t) && !NamesOk(u.disk)
            && |u.Here()| == 10 && u.Here()[8].Printed() == u.Here()[9].Printed() == n[..8]
  {
    hide BootTable;
    hide BootRoot;
    hide Find;
    hide Touch;
    hide FreeCluster;
    hide Inv;
    hide NamesOk;
    hide Format;
    hide Live;
    hide Named;
    hide DirNamed;
    var short: cstring := n[..8];
    BootInv(content);
    BootFacts(content);
    BootSlot();
    Absent(n);
    Absent(short);
    TouchedTwice(BootState(content), n);
  }
}
