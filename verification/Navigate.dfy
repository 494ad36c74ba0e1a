/**
cd keeps the current path in step with the current directory, and a resolved
path stays within the tree.
*/
module Navigate {
  import opened CStrings
  import opened Names
  import opened Paths
  import opened Disk
  import opened Tree

  /** Unreachable directories stay as they are and stay unreachable. */
  ghost predicate Frozen(d: Table, e: Table) {
    forall c: Cluster :: d[c].Dir? && !Reach(d, c) ==> e[c] == d[c] && !Reach(e, c)
  }

  lemma FrozenTwice(d: Table, e: Table, f: Table)
    requires Frozen(d, e) && Frozen(e, f)
    ensures Frozen(d, f)
  {
  }

  ghost predicate Keeps(s: FS, t: FS) {
    Inv(t) && Frozen(s.disk, t.disk)
  }

  // ---- cd ----

  lemma CwdReached(s: FS)
    requires Located(s)
    ensures Reach(s.disk, s.cwd)
  {
    var cs, ch :| TrailTo(s, cs, ch);
    TrailChain(s.disk, cs, ch);
  }

  /** An entry whose name is not a dot name is a child entry. */
  lemma NotADot(d: Table, c: Cluster, name: cstring)
    requires Structure(d) && Reach(d, c)
    requires Find(Entries(d, c), name) < |Entries(d, c)|
    ensures !Same(name, ".") && !Same(name, "..") ==> Live(d, c, Find(Entries(d, c), name))
    ensures !Entries(d, c)[Find(Entries(d, c), name)].IsDir() ==> Live(d, c, Find(Entries(d, c), name))
  {
    assert DotsAt(d, c);
  }

  lemma TrailExtend(d: Table, cs: seq<cstring>, ch: seq<Cluster>, name: cstring, c: Cluster)
    requires Trail(d, cs, ch) && Into(d, Last(ch), name, c)
    ensures Trail(d, cs + [name], ch + [c])
  {
    hide Into;
    var cs', ch' := cs + [name], ch + [c];
    forall k | 0 <= k < |cs'| ensures Into(d, ch'[k], cs'[k], ch'[k + 1]) {
      if k < |cs| { assert Into(d, ch[k], cs[k], ch[k + 1]); }
    }
  }

  lemma ShortNames(d: Table, cs: seq<cstring>, ch: seq<Cluster>)
    requires Steps(d, cs, ch)
    ensures forall k :: 0 <= k < |cs| ==> |cs[k]| <= 12
  {
    forall k | 0 <= k < |cs| ensures |cs[k]| <= 12 {
      assert Into(d, ch[k], cs[k], ch[k + 1]);
    }
  }

  /** At most 15 names of at most 12 characters: the buffer is never full. */
  lemma ExtendShort(p: cstring, cs: seq<cstring>, name: cstring)
    requires Spells(p, cs) && |p| <= PATH_BOUND && |cs| < 15
    requires forall k :: 0 <= k < |cs + [name]| ==> |(cs + [name])[k]| <= 12
    requires name != "" && '/' !in name
    ensures Spells(Extend(p, name), cs + [name]) && |Extend(p, name)| <= PATH_BOUND
  {
    assert (cs + [name])[|cs|] == name;
    ExtendSpells(p, cs, name);
    JoinLength(cs + [name], 12);
  }

  lemma CdDown(s: FS, name: cstring, i: nat, cs: seq<cstring>, ch: seq<Cluster>)
    requires TreeLike(s.disk) && NamesOk(s.disk) && |s.path| <= PATH_BOUND && TrailTo(s, cs, ch)
    requires i == Find(s.Here(), name) && Live(s.disk, s.cwd, i) && s.Here()[i].IsDir()
    ensures var n := s.Here()[i].Printed();
            var t := s.(cwd := s.Here()[i].cluster, path := Extend(s.path, n));
            Located(t)
  {
    var e := s.Here()[i];
    assert Same(e.Printed(), name);
    FindUnique(s.Here(), e.Printed(), i);
    TrailExtend(s.disk, cs, ch, e.Printed(), e.cluster);
    TrailChain(s.disk, cs + [e.Printed()], ch + [e.cluster]);
    ChainShort(s.disk, ch + [e.cluster]);
    ShortNames(s.disk, cs + [e.Printed()], ch + [e.cluster]);
    ExtendShort(s.path, cs, e.Printed());
    LocatedBy(s.(cwd := e.cluster, path := Extend(s.path, e.Printed())), cs + [e.Printed()], ch + [e.cluster]);
  }

  /** ".." of a directory leads to the one that names it. */
  lemma DotDotLeadsBack(d: Table, p: Cluster, c: Cluster)
    requires ParentsOk(d) && Reach(d, p) && HasDir(d, p, c) && d[c].Dir?
    ensures |Entries(d, c)| >= 2 && Entries(d, c)[1].cluster == p
  {
    var i: nat :| ChildAt(d, p, i) && Entries(d, p)[i].IsDir() && Entries(d, p)[i].cluster == c;
    assert Live(d, p, i);
  }

  lemma TrailShorten(d: Table, cs: seq<cstring>, ch: seq<Cluster>)
    requires Trail(d, cs, ch) && cs != []
    ensures Trail(d, cs[..|cs| - 1], ch[..|ch| - 1])
    ensures Reach(d, ch[|cs| - 1]) && HasDir(d, ch[|cs| - 1], Last(ch))
  {
    var cs', ch' := cs[..|cs| - 1], ch[..|ch| - 1];
    forall k | 0 <= k < |cs'| ensures Into(d, ch'[k], cs'[k], ch'[k + 1]) {
      assert Into(d, ch[k], cs[k], ch[k + 1]);
    }
    TrailChain(d, cs, ch);
    ChainLink(d, ch, |cs|);
  }

  lemma RootLocated(d: Table, content: Contents)
    ensures Located(FS(d, content, 0, "/"))
  {
    LocatedBy(FS(d, content, 0, "/"), [], [0]);
  }

  lemma CdUp(s: FS, cs: seq<cstring>, ch: seq<Cluster>)
    requires ParentsOk(s.disk) && DotsOk(s.disk) && TrailTo(s, cs, ch) && |s.Here()| >= 2
    ensures var t := s.(cwd := s.Here()[1].cluster, path := Shorten(s.path));
            |s.path| <= PATH_BOUND ==> Located(t)
  {
    var t := s.(cwd := s.Here()[1].cluster, path := Shorten(s.path));
    TrailChain(s.disk, cs, ch);
    ShortenSpells(s.path, cs);
    if cs == [] {
      assert DotsAt(s.disk, s.cwd);
      RootLocated(s.disk, s.content);
    } else {
      TrailShorten(s.disk, cs, ch);
      DotDotLeadsBack(s.disk, ch[|cs| - 1], s.cwd);
      if |s.path| <= PATH_BOUND { LocatedBy(t, cs[..|cs| - 1], ch[..|ch| - 1]); }
    }
  }

  lemma CdUpLocated(s: FS)
    requires ParentsOk(s.disk) && DotsOk(s.disk) && Located(s) && |s.Here()| >= 2
    ensures Located(s.(cwd := s.Here()[1].cluster, path := Shorten(s.path)))
  {
    var cs, ch :| TrailTo(s, cs, ch);
    CdUp(s, cs, ch);
  }

  lemma CdDownLocated(s: FS, name: cstring, i: nat)
    requires TreeLike(s.disk) && NamesOk(s.disk) && Located(s)
    requires i == Find(s.Here(), name) && Live(s.disk, s.cwd, i) && s.Here()[i].IsDir()
    ensures Located(s.(cwd := s.Here()[i].cluster, path := Extend(s.path, s.Here()[i].Printed())))
  {
    var cs, ch :| TrailTo(s, cs, ch);
    CdDown(s, name, i, cs, ch);
  }

  lemma CdKeepsLocated(s: FS, name: cstring)
    requires Inv(s)
    ensures Located(ChangeDir(s, name).0)
  {
    var i := Find(s.Here(), name);
    if Same(name, "/") {
      RootLocated(s.disk, s.content);
    } else if Same(name, "..") {
      if |s.Here()| >= 2 { CdUpLocated(s); }
    } else if !Same(name, ".") && i < |s.Here()| && s.Here()[i].IsDir() {
      CwdReached(s);
      NotADot(s.disk, s.cwd, name);
      StructureIsTreeLike(s.disk);
      CdDownLocated(s, name, i);
    }
  }

  lemma CdKeeps(s: FS, name: cstring)
    requires Inv(s)
    ensures Keeps(s, ChangeDir(s, name).0)
  {
    CdKeepsLocated(s, name);
  }

  /** ".." is found second in a directory that exists. */
  lemma DotDotFound(d: Table, c: Cluster, name: cstring)
    requires DotsOk(d) && Reach(d, c) && Same(name, "..")
    ensures DirAt(d, c, [name]) == if |Entries(d, c)| >= 2 then Entries(d, c)[1].cluster else -1
  {
    var es := Entries(d, c);
    if d[c].Dir? {
      assert DotsAt(d, c);
      FindUnique(es, name, 1);
    }
  }

  /** The path's components after going up, and after going down. */
  lemma PathEdits(s: FS, name: cstring)
    requires Located(s)
    ensures var cs := Components(s.path);
            Components(Shorten(s.path)) == if cs == [] then [] else cs[..|cs| - 1]
    ensures name != "" && |name| <= 12 && '/' !in name ==>
              Components(Extend(s.path, name)) == Components(s.path) + [name]
  {
    var cs, ch :| TrailTo(s, cs, ch);
    SpellsComponents(s.path, cs);
    ShortenSpells(s.path, cs);
    SpellsComponents(Shorten(s.path), if cs == [] then [] else cs[..|cs| - 1]);
    if name != "" && |name| <= 12 && '/' !in name {
      ExtendSpells(s.path, cs, name);
      SpellsComponents(Extend(s.path, name), cs + [name]);
    }
  }

  /** cd follows the directory entry it names, fails when there is none, and edits the path's components to match. */
  lemma CdMeans(s: FS, name: cstring)
    requires Inv(s)
    ensures var (t, ok) := ChangeDir(s, name);
            var cs, next := Components(s.path), DirAt(s.disk, s.cwd, [name]);
            && ok == (Same(name, "/") || Same(name, ".") || next != -1)
            && (ok ==> t.cwd == if Same(name, "/") then 0 else if Same(name, ".") then s.cwd else next)
            && Components(t.path) == if !ok || Same(name, ".") then cs
                                     else if Same(name, "/") then []
                                     else if Same(name, "..") then if cs == [] then [] else cs[..|cs| - 1]
                                     else cs + [s.Here()[Find(s.Here(), name)].Printed()]
  {
    hide Find;
    hide Reach;
    CwdReached(s);
    var i := Find(s.Here(), name);
    if Same(name, "..") {
      DotDotFound(s.disk, s.cwd, name);
      PathEdits(s, "");
    } else if !Same(name, "/") && !Same(name, ".") && i < |s.Here()| && s.Here()[i].IsDir() {
      NotADot(s.disk, s.cwd, name);
      PathEdits(s, s.Here()[i].Printed());
    }
  }

  // ---- resolving paths ----

  lemma ParentReach(d: Table, c: Cluster)
    requires ParentsOk(d) && DotsAt(d, c) && Reach(d, c)
    ensures Reach(d, Entries(d, c)[1].cluster)
  {
    RootReached(d);
    var ch :| Chain(d, ch) && Last(ch) == c;
    if |ch| > 1 {
      ChainLink(d, ch, |ch| - 1);
      DotDotLeadsBack(d, ch[|ch| - 2], c);
    }
  }

  /** Every directory entry of a reachable directory, dots included, leads to a reachable directory. */
  lemma EntryReach(d: Table, c: Cluster, i: nat)
    requires Structure(d) && Reach(d, c) && i < |Entries(d, c)| && Entries(d, c)[i].IsDir()
    ensures Reach(d, Entries(d, c)[i].cluster)
  {
    assert DotsAt(d, c);
    if i >= 2 {
      assert ChildAt(d, c, i);
      assert HasDir(d, c, Entries(d, c)[i].cluster);
      ReachStep(d, c, Entries(d, c)[i].cluster);
    } else if i == 1 {
      ParentReach(d, c);
    }
  }

  /** The resolver stays among the reachable directories, and an entry it finds has the last name. */
  lemma {:induction false} WalkReach(d: Table, from: Cluster, cs: seq<cstring>)
    requires Structure(d) && Reach(d, from)
    ensures var r := Walk(d, from, cs);
            && (r.Whole? ==> r.dir == from)
            && (r.At? ==> Reach(d, r.dir) && d[r.dir].Dir? && r.index == Find(Entries(d, r.dir), cs[|cs| - 1]))
    decreases |cs|
  {
    if cs != [] {
      var i := Find(Entries(d, from), cs[0]);
      if i < |Entries(d, from)| && Entries(d, from)[i].IsDir() && |cs| > 1 {
        EntryReach(d, from, i);
        WalkReach(d, Entries(d, from)[i].cluster, cs[1..]);
      }
    }
  }

  /** A parent path resolves to a materialised directory of the tree, if at all. */
  lemma ParentResolves(s: FS, p: cstring)
    requires Inv(s)
    ensures var r := Resolve(s, ParentPath(p));
            !r.NotFound? ==> Reach(s.disk, r.dir) && s.disk[r.dir].Dir?
  {
    CwdReached(s);
    RootReached(s.disk);
    var q := ParentPath(p);
    WalkReach(s.disk, if Absolute(q) then 0 else s.cwd, Components(q));
    assert !Absolute(q) ==> Components(q) != [];
  }

  lemma EntryResolves(s: FS, p: cstring)
    requires Inv(s) && Resolve(s, p).At?
    ensures var r := Resolve(s, p);
            && Reach(s.disk, r.dir) && s.disk[r.dir].Dir?
            && r.index == Find(Entries(s.disk, r.dir), Components(p)[|Components(p)| - 1])
  {
    hide Reach;
    hide Structure;
    hide NamesOk;
    hide Located;
    hide Find;
    hide Walk;
    hide Components;
    CwdReached(s);
    RootReached(s.disk);
    WalkReach(s.disk, if Absolute(p) then 0 else s.cwd, Components(p));
  }

  /** Without a trailing slash the entry is found by the text after the last slash. */
  lemma EntryByFileName(s: FS, p: cstring)
    requires Inv(s) && Resolve(s, p).At? && FileName(p) != ""
    ensures var r := Resolve(s, p);
            Reach(s.disk, r.dir) && s.disk[r.dir].Dir? && r.index == Find(Entries(s.disk, r.dir), FileName(p))
  {
    LastComponent(p);
    EntryResolves(s, p);
  }

  /** Where a path starts: at the root, or in the current directory. */
  function StartOf(s: FS, p: cstring): Cluster {
    if Absolute(p) then 0 else s.cwd
  }

  /** The components before the last lead to a directory, and that has an entry of the last name. */
  predicate PathExists(s: FS, p: cstring) {
    var cs := Components(p);
    && cs != []
    && var c := DirAt(s.disk, StartOf(s, p), cs[..|cs| - 1]);
       c != -1 && HasName(Entries(s.disk, c), cs[|cs| - 1])
  }

  /** In any state a path resolves exactly to the first such entry, or to its start when it has no components. */
  lemma ResolveMeans(s: FS, p: cstring)
    ensures var r, cs := Resolve(s, p), Components(p);
            && (cs == [] ==> r == Whole(StartOf(s, p)))
            && (r.At? <==> PathExists(s, p))
            && (r.NotFound? <==> cs != [] && !PathExists(s, p))
    ensures PathExists(s, p) ==>
              var r, cs := Resolve(s, p), Components(p);
              && r.dir == DirAt(s.disk, StartOf(s, p), cs[..|cs| - 1])
              && Same(Entries(s.disk, r.dir)[r.index].Printed(), cs[|cs| - 1])
              && forall k :: 0 <= k < r.index ==> !Same(Entries(s.disk, r.dir)[k].Printed(), cs[|cs| - 1])
  {
    hide Find;
    hide Same;
    hide Format;
    hide Components;
    hide DirAt;
    hide HasName;
    var cs := Components(p);
    if cs != [] {
      var c := DirAt(s.disk, StartOf(s, p), cs[..|cs| - 1]);
      WalkMeans(s.disk, StartOf(s, p), cs);
      hide Walk;
      if c != -1 { FindsName(Entries(s.disk, c), cs[|cs| - 1]); }
    }
  }

  /**
  The parent text of a destination ends in a slash, and still resolves to the
  directory that holds its last component: the one the components before it lead to.
  */
  lemma DestinationIs(s: FS, p: cstring)
    ensures var q := ParentPath(p); var r, cs := Resolve(s, q), Components(q);
            if cs == [] then r == Whole(0)
            else !r.NotFound? ==> r.At? && r.dir == DirAt(s.disk, StartOf(s, q), cs[..|cs| - 1])
  {
    hide Find;
    hide DirAt;
    var q := ParentPath(p);
    assert !Absolute(q) ==> Components(q) != [];
    if Components(q) != [] { WalkMeans(s.disk, StartOf(s, q), Components(q)); }
  }

  lemma DotsFound(d: Table, c: Cluster, name: cstring)
    requires DotsAt(d, c)
    ensures Find(Entries(d, c), name) == 0 <==> Same(name, ".")
    ensures Find(Entries(d, c), name) == 1 <==> Same(name, "..")
  {
    var es := Entries(d, c);
    if Same(name, ".") { FindUnique(es, name, 0); }
    if Same(name, "..") { FindUnique(es, name, 1); }
  }

  /** ".." of any directory but the root leads to another one. */
  lemma OtherParent(d: Table, c: Cluster)
    requires Structure(d) && Reach(d, c) && d[c].Dir?
    ensures Entries(d, c)[1].cluster == c <==> c == 0
  {
    assert DotsAt(d, c);
    var ch :| Chain(d, ch) && Last(ch) == c;
    if |ch| > 1 {
      ChainLink(d, ch, |ch| - 1);
      var p := ch[|ch| - 2];
      DotDotLeadsBack(d, p, c);
      StructureIsTreeLike(d);
      ChainDistinct(d, ch, |ch| - 2, |ch| - 1);
    }
  }

  /** A name leads from a directory back to itself only if it is ".", or ".." at the root. */
  lemma NamesItself(d: Table, c: Cluster, name: cstring)
    requires Structure(d) && Reach(d, c) && d[c].Dir?
    ensures DirAt(d, c, [name]) == c <==> Same(name, ".") || (Same(name, "..") && c == 0)
  {
    hide Find;
    hide Same;
    hide Format;
    var es, i := Entries(d, c), Find(Entries(d, c), name);
    assert DotsAt(d, c);
    DotsFound(d, c, name);
    NotItsOwnChild(d, c);
    OtherParent(d, c);
    if i >= 2 && i < |es| && es[i].IsDir() { assert ChildAt(d, c, i); }
  }

  /** The entry a path resolves to. */
  function Source(s: FS, src: cstring): Entry
    requires Resolve(s, src).At?
  {
    Entries(s.disk, Resolve(s, src).dir)[Resolve(s, src).index]
  }

  /** The parent text of a destination leads somewhere: it has no components, or an entry for the last. */
  predicate ParentExists(s: FS, p: cstring) {
    Components(ParentPath(p)) == [] || PathExists(s, ParentPath(p))
  }

  /** The directory a destination is in. */
  function Destination(s: FS, p: cstring): Cluster
    requires ParentExists(s, p)
  {
    var q := ParentPath(p);
    var cs := Components(q);
    if cs == [] then 0 else DirAt(s.disk, StartOf(s, q), cs[..|cs| - 1])
  }

  lemma PathHasParts(s: FS, p: cstring)
    ensures PathExists(s, p) ==>
              Components(p) != [] && DirAt(s.disk, StartOf(s, p), Components(p)[..|Components(p)| - 1]) != -1
  {
  }

  lemma DestinationResolves(s: FS, p: cstring)
    ensures var r := Resolve(s, ParentPath(p));
            && (!r.NotFound? <==> ParentExists(s, p))
            && (ParentExists(s, p) ==> r.dir == Destination(s, p))
  {
    hide PathExists;
    hide Resolve;
    hide Components;
    hide DirAt;
    ResolveMeans(s, ParentPath(p));
    DestinationIs(s, p);
    PathHasParts(s, ParentPath(p));
  }

  /** That is the directory the parent text names only when its last component is ".", or ".." at the root. */
  lemma DestinationNamed(s: FS, p: cstring)
    requires Inv(s) && Resolve(s, ParentPath(p)).At?
    ensures var q := ParentPath(p); var r, cs := Resolve(s, q), Components(q);
            && cs != []
            && (r.dir == DirAt(s.disk, StartOf(s, q), cs) <==>
                  Same(cs[|cs| - 1], ".") || (Same(cs[|cs| - 1], "..") && r.dir == 0))
  {
    hide Find;
    hide Components;
    hide Walk;
    hide DirAt;
    hide Located;
    var q := ParentPath(p);
    var r, cs := Resolve(s, q), Components(q);
    EntryResolves(s, q);
    DestinationIs(s, p);
    DirSnoc(s.disk, StartOf(s, q), cs);
    NamesItself(s.disk, r.dir, cs[|cs| - 1]);
  }

  /** Repeating a slash anywhere, or adding one at the end, never changes what a path resolves to. */
  lemma SlashInsensitive(s: FS, p: cstring, q: cstring)
    ensures Resolve(s, p + "/" + ("/" + q)) == Resolve(s, p + "/" + q)
    ensures p != "" ==> Resolve(s, p + "/") == Resolve(s, p)
  {
    SlashesDoNotMatter(p, q);
  }
}
