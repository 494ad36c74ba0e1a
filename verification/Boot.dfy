/**
The state fs_init sets up is well-formed, and its allocator already returns a
slot that a file names.
*/
module Boot {
  import opened CStrings
  import opened Names
  import opened Paths
  import opened Disk
  import opened Initial
  import opened FileSystem
  import opened Tree
  import opened Navigate
  import opened Creating

  /** Names of different lengths or with different first letters are not the same. */
  predicate Apart(n: string, m: string) {
    |n| != |m| || (n != "" && m != "" && UpperChar(n[0]) != UpperChar(m[0]))
  }

  lemma ApartDiffer(n: string, m: string)
    requires Apart(n, m)
    ensures !Same(n, m)
  {
  }

  lemma ApartDistinct(es: seq<Entry>)
    requires forall i, j :: 0 <= i < j < |es| ==> Apart(es[i].Printed(), es[j].Printed())
    ensures Distinct(es)
  {
    forall i, j | 0 <= i < j < |es| ensures !Same(es[i].Printed(), es[j].Printed()) {
      ApartDiffer(es[i].Printed(), es[j].Printed());
    }
  }

  predicate PrintsAs(e: Entry, len: nat, first: char) {
    |e.Printed()| == len && len > 0 && e.Printed()[0] == first
  }

  /** Whatever is spelled without spaces prints as it is spelled. */
  lemma EntryPrints(base: cstring, ext: cstring, e: Entry)
    requires ' ' !in base && ' ' !in ext && 1 <= |base| <= 8 && |ext| <= 3
    requires e.name == Pad(base, 8) + Pad(ext, 3)
    ensures PrintsAs(e, |base| + (if ext == "" then 0 else 1 + |ext|), base[0])
    ensures ext == "" ==> e.Printed() == base
  {
    FormatPadded(base, ext);
  }

  lemma DotNames(c: Cluster, p: Cluster)
    ensures Dot(c).Printed() == "." && DotDot(p).Printed() == ".."
  {
    EntryPrints(".", "", Dot(c));
    EntryPrints("..", "", DotDot(p));
  }

  lemma DirNames()
    ensures PrintsAs(Bin(), 3, 'B') && PrintsAs(Home(), 4, 'H') && PrintsAs(Etc(), 3, 'E')
    ensures PrintsAs(User(), 4, 'U') && PrintsAs(Guest(), 5, 'G')
    ensures forall e :: e in [Bin(), Home(), Etc(), User(), Guest()] ==> '/' !in e.Printed()
  {
    EntryPrints(BinText(), "", Bin());
    EntryPrints(HomeText(), "", Home());
    EntryPrints(EtcText(), "", Etc());
    EntryPrints(UserText(), "", User());
    EntryPrints(GuestText(), "", Guest());
  }

  lemma RootFileNames()
    ensures PrintsAs(Readme(), 10, 'R') && PrintsAs(Kernel(), 10, 'K') && PrintsAs(License(), 11, 'L')
  {
    hide Format;
    EntryPrints(ReadmeText(), TxtText(), Readme());
    EntryPrints(KernelText(), BinText(), Kernel());
    EntryPrints(LicenseText(), TxtText(), License());
  }

  lemma LeafFileNames()
    ensures PrintsAs(Shell(), 9, 'S') && PrintsAs(Init(), 8, 'I')
    ensures PrintsAs(Passwd(), 10, 'P') && PrintsAs(Hosts(), 9, 'H')
  {
    hide Format;
    EntryPrints(ShellText(), ExeText(), Shell());
    EntryPrints(InitText(), ExeText(), Init());
    EntryPrints(PasswdText(), TxtText(), Passwd());
    EntryPrints(HostsText(), TxtText(), Hosts());
  }

  lemma RootDistinct()
    ensures Distinct(BootRoot())
  {
    hide Format;
    DotNames(0, 0);
    DirNames();
    RootFileNames();
    ApartDistinct(BootRoot());
  }

  lemma LeavesDistinct()
    ensures Distinct(BootBin()) && Distinct(BootHome()) && Distinct(BootEtc())
  {
    hide Format;
    DotNames(1, 0);
    DotNames(2, 0);
    DotNames(3, 0);
    DirNames();
    LeafFileNames();
    ApartDistinct(BootBin());
    ApartDistinct(BootHome());
    ApartDistinct(BootEtc());
  }

  /** The directories of the initial tree, with the two that are named but not materialised. */
  predicate InBootTree(c: Cluster) {
    c <= 3 || c == 9 || c == 10
  }

  /** Which child entry names a cluster. */
  function Owner(c: Cluster): (Cluster, nat) {
    if 1 <= c <= 6 then (0, c + 1)
    else if 7 <= c <= 8 then (1, c - 5)
    else if 9 <= c <= 10 then (2, c - 7)
    else (3, if c >= 9 then c - 9 else 0)
  }

  lemma BootOwner(p: Cluster, i: nat)
    requires 2 <= i < |BootEntries(p)|
    ensures var e := BootEntries(p)[i];
            Owner(e.cluster) == (p, i) && e.cluster != 0 && (e.IsDir() <==> InBootTree(e.cluster))
  {
  }

  lemma BootReach()
    ensures forall c: Cluster :: Reach(BootTable(), c) ==> InBootTree(c)
  {
    var d := BootTable();
    var s := iset c: Cluster | InBootTree(c);
    forall p: Cluster, c: Cluster | p in s && HasDir(d, p, c) ensures c in s {
      var i: nat :| ChildAt(d, p, i) && Entries(d, p)[i].IsDir() && Entries(d, p)[i].cluster == c;
      BootTableIs(p);
      BootOwner(p, i);
    }
    ReachWithin(d, s);
  }

  lemma BootDots(c: Cluster)
    requires c < 4
    ensures DotsAt(BootTable(), c) && Entries(BootTable(), c)[1].cluster == 0
  {
    BootTableIs(c);
    DotNames(c, 0);
  }

  lemma BootStructure()
    ensures Structure(BootTable())
  {
    var d := BootTable();
    forall p: Cluster, i: nat | Live(d, p, i)
      ensures var e := Entries(d, p)[i];
              Owner(e.cluster) == (p, i) && e.cluster != 0 && (e.IsDir() <==> InBootTree(e.cluster))
    {
      BootTableIs(p);
      BootOwner(p, i);
    }
    forall c: Cluster ensures d[c].Dir? <==> c < 4 {
      BootTableIs(c);
    }
    forall c: Cluster | c < 4 ensures DotsAt(d, c) && Entries(d, c)[1].cluster == 0 {
      BootDots(c);
    }
  }

  lemma BootPrinted(p: Cluster, i: nat)
    requires 2 <= i < |BootEntries(p)|
    ensures var e := BootEntries(p)[i]; e.Printed() != "" && (e.IsDir() ==> '/' !in e.Printed())
  {
    hide Format;
    DirNames();
    RootFileNames();
    LeafFileNames();
  }

  lemma BootNames()
    ensures NamesOk(BootTable())
  {
    var d := BootTable();
    RootDistinct();
    LeavesDistinct();
    forall c: Cluster ensures Distinct(Entries(d, c)) {
      BootTableIs(c);
    }
    forall p: Cluster, i: nat | Live(d, p, i)
      ensures var e := Entries(d, p)[i]; e.Printed() != "" && (e.IsDir() ==> '/' !in e.Printed())
    {
      BootTableIs(p);
      BootPrinted(p, i);
    }
  }

  /** The boot state is well-formed. */
  lemma BootInv(content: Contents)
    ensures Inv(BootState(content))
  {
    BootStructure();
    BootNames();
    RootLocated(BootTable(), content);
  }

  // ---- the allocator at boot ----

  /** The first slot handed out is the one README.TXT has, which no directory entry names. */
  lemma BootSlot()
    ensures FreeCluster(BootTable()) == 4
    ensures Live(BootTable(), 0, 5) && Entries(BootTable(), 0)[5] == Readme()
    ensures Named(BootTable(), 4) && !DirNamed(BootTable(), 4)
  {
    var d := BootTable();
    BootTableIs(0);
    RootReached(d);
    assert Live(d, 0, 5);
    BootReach();
    forall p: Cluster | Reach(d, p) && HasDir(d, p, 4) ensures false {
      var i: nat :| ChildAt(d, p, i) && Entries(d, p)[i].IsDir() && Entries(d, p)[i].cluster == 4;
      BootTableIs(p);
      BootOwner(p, i);
    }
  }

  lemma NameAlone(name: cstring)
    requires '/' !in name
    ensures FileName(name) == name
  {
    ParentAndName(name);
  }

  /** So a touch right after boot empties README.TXT, and a mkdir gives it to a directory and breaks the structure. */
  lemma BootCreates(content: Contents, name: cstring)
    requires name != "" && '/' !in name && Find(BootRoot(), name) == |BootRoot()|
    ensures TouchCreates(BootState(content), name) && Touch(BootState(content), name).0.content[Readme().cluster] == ""
    ensures MkdirCreates(BootState(content), name) && !Structure(MakeDirectory(BootState(content), name).0.disk)
  {
    var s := BootState(content);
    BootSlot();
    BootTableIs(0);
    BootInv(content);
    NameAlone(name);
    MkdirStructure(s, name);
  }

  /** fs_init builds exactly this state. */
  method FsInit(texts: Contents) returns (fs: FileSystem)
    ensures fs.Valid() && fresh(fs.Repr) && fs.State() == BootState(texts) && Inv(fs.State())
  {
    fs := new FileSystem([BootRoot(), BootBin(), BootHome(), BootEtc()], texts);
    assert fs.State().disk == BootTable();
    BootInv(texts);
  }
}
