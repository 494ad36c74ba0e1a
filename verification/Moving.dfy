/**
mv: what it does to the table, to the tree and to the path of the current
directory, and exactly when each of them survives.
*/
module Moving {
  import opened CStrings
  import opened Names
  import opened Paths
  import opened Disk
  import opened Tree
  import opened Shrink
  import opened Grow
  import opened Relocate
  import opened Navigate
  import opened Creating

  /** The entry mv adds. */
  function Arrived(s: FS, src: cstring, dst: cstring): Entry
    requires Resolve(s, src).At?
  {
    Source(s, src).(name := Parse(FileName(dst)))
  }

  /** The table after the parent link is changed and the entry is added. */
  function Appended(s: FS, src: cstring, dst: cstring): Table
    requires MoveCreates(s, src, dst)
  {
    var to, y := Resolve(s, ParentPath(dst)).dir, Arrived(s, src, dst);
    Append(Reparent(s.disk, y, to), to, y)
  }

  predicate DotName(n: string) {
    Same(n, ".") || Same(n, "..")
  }

  /** The last component of a path, with or without slashes after it. */
  function LastName(p: cstring): cstring
    requires Components(p) != []
  {
    Components(p)[|Components(p)| - 1]
  }

  /**
  The source text ends in a slash, and the new entry does not end up beside the old
  one under the empty name: the second lookup, by the text after the last slash,
  finds nothing to remove.
  */
  predicate Doubles(s: FS, src: cstring, dst: cstring)
    requires MoveCreates(s, src, dst)
  {
    && FileName(src) == ""
    && !(Resolve(s, src).dir == Resolve(s, ParentPath(dst)).dir && Reprint(FileName(dst)) == "")
  }

  // ---- when mv succeeds ----

  /**
  In any state mv succeeds exactly when the source path leads to an entry, the parent
  text of the destination leads somewhere, and no entry there has the last name.
  */
  lemma MvSucceeds(s: FS, src: cstring, dst: cstring)
    ensures MoveFile(s, src, dst).1 <==>
            PathExists(s, src) && ParentExists(s, dst) && !HasName(Entries(s.disk, Destination(s, dst)), FileName(dst))
    ensures !MoveFile(s, src, dst).1 ==> MoveFile(s, src, dst).0 == s
  {
    hide Find;
    hide Resolve;
    hide PathExists;
    hide ParentExists;
    hide Destination;
    hide HasName;
    ResolveMeans(s, src);
    DestinationResolves(s, dst);
    if ParentExists(s, dst) { FindsName(Entries(s.disk, Destination(s, dst)), FileName(dst)); }
  }

  // ---- the table ----

  lemma ReparentRenamed(d: Table, x: Entry, n: Field, to: Cluster)
    ensures Reparent(d, x.(name := n), to) == Reparent(d, x, to)
  {
  }

  /** The removal is by a lookup in the table after the append. */
  lemma MoveUnfolds(s: FS, src: cstring, dst: cstring)
    requires MoveCreates(s, src, dst)
    ensures var m, from := Appended(s, src, dst), Resolve(s, src).dir;
            var i := Find(Entries(m, from), FileName(src));
            MoveFile(s, src, dst) == (s.(disk := if i < |Entries(m, from)| then Remove(m, from, i) else m), true)
  {
    hide Find;
    ReparentRenamed(s.disk, Source(s, src), Arrived(s, src, dst).name, Resolve(s, ParentPath(dst)).dir);
    hide Reparent;
  }

  /** That lookup finds an old entry where it found it before. */
  lemma LookedUpAgain(d: Table, c: Cluster, p: Cluster, y: Entry, name: cstring)
    requires Find(Entries(d, c), name) < |Entries(d, c)|
    ensures var es := Entries(Append(Reparent(d, y, p), p, y), c);
            Find(es, name) == Find(Entries(d, c), name) < |es|
  {
    hide Find;
    var r := Reparent(d, y, p);
    Reparented(d, y, p, c);
    FindSamePrinted(Entries(d, c), Entries(r, c), name);
    if c == p { FindAppend(Entries(r, c), y, name); }
  }

  /** No entry of a well-formed directory prints as the empty name. */
  lemma NoEmptyName(s: FS, c: Cluster)
    requires Inv(s) && Reach(s.disk, c) && s.disk[c].Dir?
    ensures forall i :: 0 <= i < |Entries(s.disk, c)| ==> Entries(s.disk, c)[i].Printed() != ""
  {
    hide Format;
    assert DotsAt(s.disk, c);
    forall i | 0 <= i < |Entries(s.disk, c)| ensures Entries(s.disk, c)[i].Printed() != "" {
      assert i >= 2 ==> Live(s.disk, c, i);
    }
  }

  /** A lookup of the empty name finds at most the new entry. */
  lemma EmptyLookup(d: Table, c: Cluster, p: Cluster, y: Entry)
    requires forall i :: 0 <= i < |Entries(d, c)| ==> Entries(d, c)[i].Printed() != ""
    ensures var es := Entries(Append(Reparent(d, y, p), p, y), c);
            if c == p && y.Printed() == "" then Find(es, "") == |Entries(d, c)| == |es| - 1 else Find(es, "") == |es|
  {
    hide Find;
    hide Format;
    var es := Entries(Append(Reparent(d, y, p), p, y), c);
    Reparented(d, y, p, c);
    forall i | 0 <= i < |Entries(d, c)| ensures !Same(es[i].Printed(), "") {
      assert es[i].Printed() == Entries(d, c)[i].Printed();
    }
    if c == p && y.Printed() == "" {
      FindUnique(es, "", |es| - 1);
    } else {
      FindUnique(es, "", |es|);
    }
  }

  /** Both ends of a move are directories of the tree. */
  lemma MoveEnds(s: FS, src: cstring, dst: cstring)
    requires Inv(s) && MoveCreates(s, src, dst)
    ensures var from, to := Resolve(s, src), Resolve(s, ParentPath(dst)).dir;
            && Components(src) != [] && from.index == Find(Entries(s.disk, from.dir), LastName(src))
            && Reach(s.disk, from.dir) && s.disk[from.dir].Dir? && Reach(s.disk, to) && s.disk[to].Dir?
            && (from.index >= 2 <==> !DotName(LastName(src)))
            && (FileName(src) != "" ==> LastName(src) == FileName(src))
  {
    hide Find;
    hide Same;
    hide Walk;
    hide Components;
    EntryResolves(s, src);
    ParentResolves(s, dst);
    var from := Resolve(s, src).dir;
    assert DotsAt(s.disk, from);
    DotsFound(s.disk, from, LastName(src));
    if FileName(src) != "" { LastComponent(src); }
  }

  lemma AppendUndone(d: Table, c: Cluster, y: Entry)
    requires d[c].Dir?
    ensures |Entries(Append(d, c, y), c)| == |Entries(d, c)| + 1
    ensures Remove(Append(d, c, y), c, |Entries(d, c)|) == d
  {
    assert Without(Entries(d, c) + [y], |Entries(d, c)|) == Entries(d, c);
  }

  /** What the second lookup removes from the table after the append. */
  lemma SecondLookup(d: Table, c: Cluster, k: nat, p: Cluster, y: Entry, name: cstring)
    requires d[p].Dir? && k < |Entries(d, c)| && (name != "" ==> k == Find(Entries(d, c), name))
    requires forall i :: 0 <= i < |Entries(d, c)| ==> Entries(d, c)[i].Printed() != ""
    ensures var m := Append(Reparent(d, y, p), p, y); var i := Find(Entries(m, c), name);
            && k < |Entries(m, c)|
            && (if i < |Entries(m, c)| then Remove(m, c, i) else m) ==
                 if name != "" then Remove(m, c, k)
                 else if c == p && y.Printed() == "" then Reparent(d, y, p)
                 else m
  {
    hide Find;
    hide Format;
    hide Same;
    Reparented(d, y, p, c);
    Reparented(d, y, p, p);
    var r := Reparent(d, y, p);
    if name != "" {
      LookedUpAgain(d, c, p, y, name);
    } else {
      EmptyLookup(d, c, p, y);
      hide Reparent;
      AppendUndone(r, p, y);
    }
  }

  lemma ArrivedPrints(s: FS, src: cstring, dst: cstring)
    requires Resolve(s, src).At?
    ensures Arrived(s, src, dst).Printed() == Reprint(FileName(dst)) && '/' !in Arrived(s, src, dst).Printed()
    ensures Arrived(s, src, dst) == Source(s, src).(name := Arrived(s, src, dst).name)
  {
    hide Resolve;
    NoNewCharacter(FileName(dst), '/');
  }

  /**
  What mv makes of the table. The entry removed is precisely the one the source path
  resolved to, or none, or the new one.
  */
  lemma MvTable(s: FS, src: cstring, dst: cstring)
    requires Inv(s) && MoveCreates(s, src, dst)
    ensures var from, to, m := Resolve(s, src), Resolve(s, ParentPath(dst)).dir, Appended(s, src, dst);
            var t := MoveFile(s, src, dst).0;
            && t == s.(disk := t.disk)
            && from.index < |Entries(m, from.dir)|
            && t.disk == if FileName(src) != "" then Remove(m, from.dir, from.index)
                         else if Doubles(s, src, dst) then m
                         else Reparent(s.disk, Arrived(s, src, dst), to)
  {
    var from, to, y := Resolve(s, src), Resolve(s, ParentPath(dst)).dir, Arrived(s, src, dst);
    MoveEnds(s, src, dst);
    MoveUnfolds(s, src, dst);
    ArrivedPrints(s, src, dst);
    NoEmptyName(s, from.dir);
    hide Inv;
    hide Find;
    hide Format;
    hide Same;
    hide Resolve;
    hide Components;
    hide Reparent;
    hide MoveFile;
    hide Arrived;
    hide Remove;
    hide Append;
    SecondLookup(s.disk, from.dir, from.index, to, y, FileName(src));
  }

  /** The table after a child with no slash after it has moved. */
  lemma MovesIs(d: Table, c: Cluster, k: nat, p: Cluster, y: Entry)
    requires Reach(d, c) && ChildAt(d, c, k) && Reach(d, p) && d[p].Dir? && y == Entries(d, c)[k].(name := y.name)
    requires k < |Entries(Append(Reparent(d, y, p), p, y), c)|
    ensures Moves(d, Remove(Append(Reparent(d, y, p), p, y), c, k), c, k, p, y)
  {
  }

  /** A child with no slash after it is moved: taken out where it was and added, renamed, at the destination. */
  lemma MoveTable(s: FS, src: cstring, dst: cstring)
    requires Inv(s) && MoveCreates(s, src, dst) && FileName(src) != "" && !DotName(FileName(src))
    ensures var from, to, t := Resolve(s, src), Resolve(s, ParentPath(dst)).dir, MoveFile(s, src, dst).0;
            && Moves(s.disk, t.disk, from.dir, from.index, to, Arrived(s, src, dst))
            && t == s.(disk := t.disk)
  {
    var from, to, y := Resolve(s, src), Resolve(s, ParentPath(dst)).dir, Arrived(s, src, dst);
    MoveEnds(s, src, dst);
    MvTable(s, src, dst);
    ArrivedPrints(s, src, dst);
    hide Inv;
    hide Find;
    hide Format;
    hide Same;
    hide Resolve;
    hide Components;
    hide Reparent;
    hide MoveFile;
    hide Arrived;
    hide Remove;
    hide Append;
    MovesIs(s.disk, from.dir, from.index, to, y);
  }

  // ---- a trailing slash ----

  lemma ReparentKeepsEdges(d: Table, y: Entry, p: Cluster)
    ensures forall q: Cluster, x: Cluster :: HasDir(Reparent(d, y, p), q, x) <==> HasDir(d, q, x)
  {
    var r := Reparent(d, y, p);
    forall q: Cluster, x: Cluster ensures HasDir(r, q, x) <==> HasDir(d, q, x) {
      Reparented(d, y, p, q);
      if HasDir(r, q, x) {
        var i: nat :| ChildAt(r, q, i) && Entries(r, q)[i].IsDir() && Entries(r, q)[i].cluster == x;
        assert ChildAt(d, q, i);
      }
      if HasDir(d, q, x) {
        var i: nat :| ChildAt(d, q, i) && Entries(d, q)[i].IsDir() && Entries(d, q)[i].cluster == x;
        assert ChildAt(r, q, i);
      }
    }
  }

  lemma SameEdgesReach(d: Table, e: Table)
    requires forall q: Cluster, x: Cluster :: HasDir(e, q, x) <==> HasDir(d, q, x)
    ensures forall x: Cluster :: Reach(e, x) <==> Reach(d, x)
  {
    hide HasDir;
    FewerEdges(d, e);
    FewerEdges(e, d);
  }

  /** An entry added to p whose cluster can already be reached adds nothing to what can. */
  lemma AddedEdges(d: Table, p: Cluster, y: Entry)
    requires Reach(d, p) && DotsAt(d, p) && (y.IsDir() ==> Reach(d, y.cluster))
    ensures var m := Append(d, p, y); forall x: Cluster :: Reach(m, x) <==> Reach(d, x)
    ensures forall q: Cluster, x: Cluster :: HasDir(d, q, x) ==> HasDir(Append(d, p, y), q, x)
  {
    var m := Append(d, p, y);
    forall q: Cluster, i: nat | ChildAt(d, q, i) ensures ChildAt(m, q, i) && Entries(m, q)[i] == Entries(d, q)[i] {
    }
    forall q: Cluster, x: Cluster | HasDir(d, q, x) ensures HasDir(m, q, x) {
      var i: nat :| ChildAt(d, q, i) && Entries(d, q)[i].IsDir() && Entries(d, q)[i].cluster == x;
      assert ChildAt(m, q, i);
    }
    FewerEdges(m, d);
    var s := iset x: Cluster | Reach(d, x);
    RootReached(d);
    forall q: Cluster, x: Cluster | q in s && HasDir(m, q, x) ensures x in s {
      var i: nat :| ChildAt(m, q, i) && Entries(m, q)[i].IsDir() && Entries(m, q)[i].cluster == x;
      if i < |Entries(d, q)| {
        assert HasDir(d, q, x);
        ReachStep(d, q, x);
      }
    }
    ReachWithin(m, s);
  }

  /** Every reachable directory but the root is named by a live entry. */
  lemma NamedBy(d: Table, x: Cluster) returns (q: Cluster, j: nat)
    requires Reach(d, x) && x != 0
    ensures Live(d, q, j) && Entries(d, q)[j].IsDir() && Entries(d, q)[j].cluster == x
  {
    var ch :| Chain(d, ch) && Last(ch) == x;
    ChainLink(d, ch, |ch| - 1);
    q := ch[|ch| - 2];
    j :| ChildAt(d, q, j) && Entries(d, q)[j].IsDir() && Entries(d, q)[j].cluster == x;
  }

  /** The directory of a doubled entry is named twice, or is the root. */
  lemma DoubledBreaks(d: Table, m: Table, p: Cluster, y: Entry)
    requires Structure(d) && Reach(d, p) && DotsAt(d, p) && y.IsDir() && Reach(d, y.cluster)
    requires m == Append(Reparent(d, y, p), p, y)
    ensures !Structure(m)
  {
    hide Reach;
    hide Format;
    var r, n := Reparent(d, y, p), |Entries(d, p)|;
    Reparented(d, y, p, p);
    ReparentKeepsEdges(d, y, p);
    SameEdgesReach(d, r);
    assert DotsAt(r, p);
    AddedEdges(r, p, y);
    assert Live(m, p, n) && Entries(m, p)[n] == y;
    hide DotsOk;
    hide HasDir;
    if y.cluster != 0 {
      var q, j := NamedBy(d, y.cluster);
      Reparented(d, y, p, q);
      assert Live(m, q, j) && Entries(m, q)[j].cluster == y.cluster;
      Clash(m, p, n, q, j);
    }
  }

  /** Adding an entry changes no lookup that succeeded, and a changed parent link none at all. */
  lemma AppendLocated(s: FS, t: FS, p: Cluster, y: Entry, added: bool)
    requires Located(s) && t.cwd == s.cwd && t.path == s.path
    requires t.disk == if added then Append(Reparent(s.disk, y, p), p, y) else Reparent(s.disk, y, p)
    ensures Located(t)
  {
    hide Find;
    hide Format;
    var d, e, r := s.disk, t.disk, Reparent(s.disk, y, p);
    var cs, ch :| TrailTo(s, cs, ch);
    forall m | 0 <= m < |cs| ensures Into(e, ch[m], cs[m], ch[m + 1]) {
      assert Into(d, ch[m], cs[m], ch[m + 1]);
      var q, name := ch[m], cs[m];
      Reparented(d, y, p, q);
      FindSamePrinted(Entries(d, q), Entries(r, q), name);
      if added && q == p { FindAppend(Entries(r, q), y, name); }
    }
    LocatedBy(t, cs, ch);
  }

  lemma FileIsApart(d: Table, c: Cluster, i: nat)
    requires Structure(d) && Reach(d, c) && d[c].Dir? && i < |Entries(d, c)| && !Entries(d, c)[i].IsDir()
    ensures var x := Entries(d, c)[i].cluster; x != 0 && d[x].Empty? && !DirNamed(d, x)
  {
    var x := Entries(d, c)[i].cluster;
    assert DotsAt(d, c) && Live(d, c, i);
    if DirNamed(d, x) {
      var q: Cluster :| Reach(d, q) && HasDir(d, q, x);
      var j: nat :| ChildAt(d, q, j) && Entries(d, q)[j].IsDir() && Entries(d, q)[j].cluster == x;
      assert Live(d, q, j);
    }
  }

  lemma GrowsIs(d: Table, p: Cluster, y: Entry)
    requires d[p].Dir? && y.cluster != 0 && d[y.cluster].Empty? && !y.IsDir()
    ensures Grows(d, Append(Reparent(d, y, p), p, y), p, y)
  {
  }

  /** A file is doubled as cp adds one: its slot is in use, but not by a directory. */
  lemma DoubledFileGrows(s: FS, src: cstring, dst: cstring)
    requires Inv(s) && MoveCreates(s, src, dst) && Doubles(s, src, dst) && !Source(s, src).IsDir()
    ensures var to, y := Resolve(s, ParentPath(dst)).dir, Arrived(s, src, dst);
            Grows(s.disk, MoveFile(s, src, dst).0.disk, to, y) && Fresh(s.disk, y)
  {
    var from, to, y := Resolve(s, src), Resolve(s, ParentPath(dst)).dir, Arrived(s, src, dst);
    MoveEnds(s, src, dst);
    MvTable(s, src, dst);
    ArrivedPrints(s, src, dst);
    FileIsApart(s.disk, from.dir, from.index);
    hide Inv;
    hide Find;
    hide Format;
    hide Same;
    hide Resolve;
    hide Components;
    hide Reparent;
    hide MoveFile;
    hide Arrived;
    hide Append;
    hide Reach;
    hide Grows;
    GrowsIs(s.disk, to, y);
  }

  /** Without doubling, a move of a child over itself changes nothing. */
  lemma ReparentInPlace(d: Table, c: Cluster, k: nat)
    requires Structure(d) && Live(d, c, k)
    ensures Reparent(d, Entries(d, c)[k], c) == d
  {
    var x := Entries(d, c)[k];
    if x.IsDir() && |Entries(d, x.cluster)| >= 2 {
      assert Entries(d, x.cluster)[1 := Entries(d, x.cluster)[1].(cluster := c)] == Entries(d, x.cluster);
    }
  }

  lemma SlashUnchanged(s: FS, src: cstring, dst: cstring)
    requires Inv(s) && MoveCreates(s, src, dst) && FileName(src) == "" && !Doubles(s, src, dst)
    requires !DotName(LastName(src))
    ensures MoveFile(s, src, dst).0 == s
  {
    hide Find;
    hide Format;
    hide Same;
    hide Walk;
    hide Components;
    MoveEnds(s, src, dst);
    MvTable(s, src, dst);
    hide MoveFile;
    var from, y := Resolve(s, src), Arrived(s, src, dst);
    ReparentInPlace(s.disk, from.dir, from.index);
    ReparentRenamed(s.disk, Source(s, src), y.name, from.dir);
  }

  // ---- the structure ----

  /** Without its first or second entry a directory no longer starts with its dot entries. */
  lemma DotLost(es: seq<Entry>, rs: seq<Entry>, y: Entry, added: bool, k: nat)
    requires SamePrinted(es, rs) && |es| >= 2 && k < 2 && Distinct(es)
    requires es[0].Printed() == "." && es[1].Printed() == ".." && (added ==> y.Printed() != "..")
    ensures var out := Without(rs + if added then [y] else [], k);
            !(|out| >= 2 && out[0].Printed() == "." && out[1].Printed() == "..")
  {
    hide Format;
    var out := Without(rs + if added then [y] else [], k);
    if k == 0 {
      assert out[0] == rs[1];
    } else if |out| >= 2 {
      EntryAfter(rs, y, added, true, 1, 1);
      if |rs| > 2 {
        assert out[1] == rs[2] && !Same(es[1].Printed(), es[2].Printed());
        SameEquivalence(es[1].Printed(), es[2].Printed(), "");
      }
    }
  }

  /** Directories other than c keep their children when an entry is taken out of c, so the way to c survives. */
  lemma StillReached(d: Table, e: Table, c: Cluster)
    requires TreeLike(d) && Reach(d, c)
    requires forall q: Cluster, i: nat :: q != c && ChildAt(d, q, i) ==>
               ChildAt(e, q, i) && Entries(e, q)[i] == Entries(d, q)[i]
    ensures Reach(e, c)
  {
    var ch :| Chain(d, ch) && Last(ch) == c;
    forall m | 0 <= m < |ch| - 1 ensures HasDir(e, ch[m], ch[m + 1]) {
      assert HasDir(d, ch[m], ch[m + 1]);
      ChainDistinct(d, ch, m, |ch| - 1);
      var i: nat :| ChildAt(d, ch[m], i) && Entries(d, ch[m])[i].IsDir() && Entries(d, ch[m])[i].cluster == ch[m + 1];
      assert ChildAt(e, ch[m], i);
    }
    assert Chain(e, ch);
  }

  lemma DotMoveBreaks(d: Table, c: Cluster, k: nat, p: Cluster, y: Entry)
    requires Structure(d) && NamesOk(d) && Reach(d, c) && d[c].Dir? && k < 2 && y.Printed() != ".."
    requires k < |Entries(Append(Reparent(d, y, p), p, y), c)|
    ensures !Structure(Remove(Append(Reparent(d, y, p), p, y), c, k))
  {
    hide Format;
    hide Find;
    var r := Reparent(d, y, p);
    var e := Remove(Append(r, p, y), c, k);
    forall q: Cluster, i: nat | q != c && ChildAt(d, q, i)
      ensures ChildAt(e, q, i) && Entries(e, q)[i] == Entries(d, q)[i]
    {
      Reparented(d, y, p, q);
    }
    StructureIsTreeLike(d);
    StillReached(d, e, c);
    Reparented(d, y, p, c);
    assert DotsAt(d, c) && Distinct(Entries(d, c));
    DotLost(Entries(d, c), Entries(r, c), y, c == p, k);
    assert Entries(e, c) == Without(Entries(r, c) + if c == p then [y] else [], k);
    assert e[c].Dir? && !DotsAt(e, c);
  }

  lemma NotDotDot(d: Table, c: Cluster, n: cstring)
    requires DotsOk(d) && Reach(d, c) && d[c].Dir? && NewName(Entries(d, c), n)
    ensures Reprint(n) != ".."
  {
    assert DotsAt(d, c);
    if Reprint(n) == ".." { SameEquivalence("..", "..", ".."); }
  }

  lemma DotsThere(s: FS, c: Cluster)
    requires Inv(s) && Reach(s.disk, c) && s.disk[c].Dir?
    ensures DotsAt(s.disk, c) && |Entries(s.disk, c)| >= 2
  {
  }

  lemma MoveReaches(s: FS, src: cstring, dst: cstring)
    requires Inv(s) && MoveCreates(s, src, dst)
    ensures DotsAt(s.disk, Resolve(s, ParentPath(dst)).dir)
    ensures Source(s, src).IsDir() ==> Reach(s.disk, Source(s, src).cluster)
  {
    hide Find;
    hide Format;
    hide Walk;
    hide Components;
    hide Structure;
    hide NamesOk;
    hide Located;
    hide DotsAt;
    MoveEnds(s, src, dst);
    var from := Resolve(s, src);
    if Source(s, src).IsDir() { EntryReach(s.disk, from.dir, from.index); }
    DotsThere(s, Resolve(s, ParentPath(dst)).dir);
  }

  /**
  Under a new name mv keeps the structure exactly when its source text ends in a name
  that is no dot name, or in a slash after the name of a file.
  */
  lemma MvStructure(s: FS, src: cstring, dst: cstring)
    requires Inv(s) && MoveCreates(s, src, dst)
    requires NewName(Entries(s.disk, Resolve(s, ParentPath(dst)).dir), FileName(dst))
    ensures Structure(MoveFile(s, src, dst).0.disk) <==>
            if FileName(src) == "" then !Source(s, src).IsDir() else !DotName(FileName(src))
  {
    hide Find;
    hide Same;
    hide Format;
    hide Walk;
    hide Components;
    hide Reparent;
    hide Located;
    var from, to, y := Resolve(s, src), Resolve(s, ParentPath(dst)).dir, Arrived(s, src, dst);
    MoveEnds(s, src, dst);
    MvTable(s, src, dst);
    ArrivedPrints(s, src, dst);
    MoveReaches(s, src, dst);
    hide MoveFile;
    hide DotsAt;
    hide Resolve;
    hide Reprint;
    hide Remove;
    if FileName(src) != "" && !DotName(FileName(src)) {
      MoveTable(s, src, dst);
      MoveStructure(s.disk, MoveFile(s, src, dst).0.disk, from.dir, from.index, to, y);
    } else if FileName(src) != "" {
      NotDotDot(s.disk, to, FileName(dst));
      DotMoveBreaks(s.disk, from.dir, from.index, to, y);
    } else if y.IsDir() {
      DoubledBreaks(s.disk, Appended(s, src, dst), to, y);
    } else {
      DoubledFileGrows(s, src, dst);
      GrowStructure(s.disk, MoveFile(s, src, dst).0.disk, to, y);
    }
  }

  // ---- what a move loses ----

  lemma ReparentDots(d: Table, y: Entry, p: Cluster)
    requires DotsAt(d, p)
    ensures DotsAt(Reparent(d, y, p), p)
  {
    hide Format;
    Reparented(d, y, p, p);
    hide Reparent;
  }

  lemma DoubledReach(d: Table, p: Cluster, y: Entry)
    requires Reach(d, p) && DotsAt(d, p) && (y.IsDir() ==> Reach(d, y.cluster))
    ensures forall x: Cluster :: Reach(Reparent(d, y, p), x) <==> Reach(d, x)
    ensures forall x: Cluster :: Reach(Append(Reparent(d, y, p), p, y), x) <==> Reach(d, x)
  {
    var r := Reparent(d, y, p);
    hide *;
    ReparentKeepsEdges(d, y, p);
    SameEdgesReach(d, r);
    ReparentDots(d, y, p);
    AddedEdges(r, p, y);
  }

  lemma SlashReach(s: FS, src: cstring, dst: cstring)
    requires Inv(s) && MoveCreates(s, src, dst) && FileName(src) == ""
    ensures forall x: Cluster :: Reach(MoveFile(s, src, dst).0.disk, x) <==> Reach(s.disk, x)
  {
    hide Inv;
    hide Reach;
    hide DotsAt;
    hide Reparent;
    hide Append;
    hide MoveFile;
    hide Find;
    hide Same;
    hide Format;
    hide Resolve;
    MoveEnds(s, src, dst);
    MvTable(s, src, dst);
    MoveReaches(s, src, dst);
    DoubledReach(s.disk, Resolve(s, ParentPath(dst)).dir, Arrived(s, src, dst));
  }

  /** mv loses part of the tree exactly when it puts a directory, named without a slash after it, inside itself. */
  lemma MvLosesNothing(s: FS, src: cstring, dst: cstring)
    requires Inv(s) && MoveCreates(s, src, dst) && !DotName(FileName(src))
    ensures var t, to := MoveFile(s, src, dst).0, Resolve(s, ParentPath(dst)).dir;
            (forall x: Cluster :: Reach(t.disk, x) <==> Reach(s.disk, x))
            <==> FileName(src) == "" || !(Source(s, src).IsDir() && Above(s.disk, Source(s, src).cluster, to))
  {
    hide Find;
    hide Format;
    hide Same;
    hide Walk;
    hide Components;
    hide Reparent;
    hide MoveFile;
    var from, to, t := Resolve(s, src), Resolve(s, ParentPath(dst)).dir, MoveFile(s, src, dst).0;
    if FileName(src) != "" {
      MoveTable(s, src, dst);
      MoveLosesNothing(s.disk, t.disk, from.dir, from.index, to, Arrived(s, src, dst));
    } else {
      SlashReach(s, src, dst);
    }
  }

  /** Directories that cannot be reached stay as they are and stay unreachable. */
  lemma MoveFrozen(d: Table, e: Table, c: Cluster, k: nat, p: Cluster, y: Entry)
    requires Moves(d, e, c, k, p, y)
    ensures Frozen(d, e)
  {
    MoveReach(d, e, c, k, p, y);
    forall x: Cluster | d[x].Dir? && !Reach(d, x) ensures e[x] == d[x] {
      if y.IsDir() && y.cluster == x {
        assert HasDir(d, c, x);
        ReachStep(d, c, x);
      }
    }
  }

  lemma AppendFrozen(d: Table, e: Table, p: Cluster, y: Entry, added: bool)
    requires Reach(d, p) && (y.IsDir() ==> Reach(d, y.cluster))
    requires e == if added then Append(Reparent(d, y, p), p, y) else Reparent(d, y, p)
    requires forall x: Cluster :: Reach(e, x) <==> Reach(d, x)
    ensures Frozen(d, e)
  {
    hide Reach;
  }

  lemma SlashFrozen(s: FS, src: cstring, dst: cstring)
    requires Inv(s) && MoveCreates(s, src, dst) && FileName(src) == ""
    ensures Frozen(s.disk, MoveFile(s, src, dst).0.disk)
  {
    var from, to, y := Resolve(s, src), Resolve(s, ParentPath(dst)).dir, Arrived(s, src, dst);
    MoveEnds(s, src, dst);
    MvTable(s, src, dst);
    SlashReach(s, src, dst);
    ArrivedPrints(s, src, dst);
    if y.IsDir() { EntryReach(s.disk, from.dir, from.index); }
    hide Inv;
    hide Find;
    hide Format;
    hide Same;
    hide Resolve;
    hide Components;
    hide Reparent;
    hide MoveFile;
    hide Arrived;
    hide Append;
    hide Reach;
    hide Frozen;
    AppendFrozen(s.disk, MoveFile(s, src, dst).0.disk, to, y, Doubles(s, src, dst));
  }

  // ---- the path of the current directory ----

  lemma NoneLeft(es: seq<Entry>, rs: seq<Entry>, y: Entry, added: bool, k: nat, name: cstring)
    requires SamePrinted(es, rs) && Distinct(es) && k < |es| && Same(es[k].Printed(), name)
    requires added ==> !Same(es[k].Printed(), y.Printed())
    ensures var left := Without(rs + if added then [y] else [], k);
            forall i :: 0 <= i < |left| ==> !Same(left[i].Printed(), name)
  {
    hide Same;
    hide Format;
    var left := Without(rs + if added then [y] else [], k);
    forall i | 0 <= i < |left| ensures !Same(left[i].Printed(), name) {
      EntryAfter(rs, y, added, true, k, i);
      SameEquivalence(left[i].Printed(), name, es[k].Printed());
      SameEquivalence(es[k].Printed(), name, left[i].Printed());
      SameEquivalence(name, left[i].Printed(), name);
      SameEquivalence(left[i].Printed(), es[k].Printed(), name);
    }
  }

  /** The name of the moved entry is no longer found where it was, unless it comes back under it. */
  lemma NameGone(d: Table, e: Table, c: Cluster, k: nat, p: Cluster, y: Entry, name: cstring)
    requires Moves(d, e, c, k, p, y) && Distinct(Entries(d, c)) && k == Find(Entries(d, c), name)
    requires !(c == p && Same(y.Printed(), Entries(d, c)[k].Printed()))
    ensures Find(Entries(e, c), name) == |Entries(e, c)|
  {
    hide Find;
    hide Same;
    hide Format;
    var es, rs := Entries(d, c), Entries(Reparent(d, y, p), c);
    Reparented(d, y, p, c);
    EntriesMoved(d, e, c, k, p, y, c);
    SameEquivalence(es[k].Printed(), y.Printed(), "");
    NoneLeft(es, rs, y, c == p, k, name);
    FindUnique(Entries(e, c), name, |Entries(e, c)|);
  }

  lemma SameTarget(d: Table, q: Cluster, name: cstring, x: Cluster, y: Cluster)
    requires Into(d, q, name, x) && Into(d, q, name, y)
    ensures x == y
  {
    hide Find;
  }

  lemma ElsewhereKept(d: Table, e: Table, c: Cluster, k: nat, p: Cluster, y: Entry,
                      q: Cluster, name: cstring, x: Cluster)
    requires Moves(d, e, c, k, p, y) && Into(d, q, name, x) && y.cluster != x
    ensures Into(e, q, name, x)
  {
    hide Find;
    hide Reach;
    hide Reparent;
    IntoKept(d, e, c, k, p, y, q, name, x);
  }

  /** Two trails for the same names agree as long as the first does not enter the moved directory. */
  lemma {:induction false} TrailsAgree(d: Table, e: Table, c: Cluster, k: nat, p: Cluster, y: Entry,
                                       cs: seq<cstring>, ch: seq<Cluster>, ch': seq<Cluster>, n: nat)
    requires Moves(d, e, c, k, p, y) && Trail(d, cs, ch) && Trail(e, cs, ch')
    requires n < |ch| && y.IsDir() && y.cluster !in ch[..n + 1]
    ensures ch'[n] == ch[n]
    decreases n
  {
    hide Moves;
    hide Find;
    hide Into;
    if n > 0 {
      assert ch[..n] <= ch[..n + 1] && ch[n] in ch[..n + 1];
      TrailsAgree(d, e, c, k, p, y, cs, ch, ch', n - 1);
      assert Into(d, ch[n - 1], cs[n - 1], ch[n - 1 + 1]) && Into(e, ch'[n - 1], cs[n - 1], ch'[n - 1 + 1]);
      ElsewhereKept(d, e, c, k, p, y, ch[n - 1], cs[n - 1], ch[n]);
      SameTarget(e, ch[n - 1], cs[n - 1], ch[n], ch'[n]);
    }
  }

  /** The lookup that led into the moved directory leads nowhere afterwards. */
  lemma DeadEnd(d: Table, e: Table, c: Cluster, k: nat, p: Cluster, y: Entry, q: Cluster, name: cstring)
    requires NamedOnce(d) && NamesOk(d) && Moves(d, e, c, k, p, y) && y.IsDir()
    requires !(c == p && Same(y.Printed(), Entries(d, c)[k].Printed()))
    requires Reach(d, q) && Into(d, q, name, y.cluster)
    ensures forall x: Cluster :: !Into(e, q, name, x)
  {
    hide Find;
    hide Same;
    hide Format;
    assert Live(d, q, Find(Entries(d, q), name)) && Live(d, c, k);
    NameGone(d, e, c, k, p, y, name);
  }

  lemma MovedStep(d: Table, e: Table, c: Cluster, k: nat, p: Cluster, y: Entry,
                  cs: seq<cstring>, ch: seq<Cluster>, ch': seq<Cluster>, m: nat)
    requires TreeLike(d) && NamedOnce(d) && NamesOk(d) && Moves(d, e, c, k, p, y) && y.IsDir() && y.cluster != 0
    requires !(c == p && Same(y.Printed(), Entries(d, c)[k].Printed()))
    requires Trail(d, cs, ch) && m < |ch| && ch[m] == y.cluster
    ensures !Trail(e, cs, ch')
  {
    hide Find;
    hide Same;
    hide Format;
    TrailChain(d, cs, ch);
    forall i | 0 <= i < m ensures ch[i] != ch[m] {
      ChainDistinct(d, ch, i, m);
    }
    ChainLink(d, ch, m);
    assert Into(d, ch[m - 1], cs[m - 1], ch[m - 1 + 1]);
    if Trail(e, cs, ch') {
      TrailsAgree(d, e, c, k, p, y, cs, ch, ch', m - 1);
      assert Into(e, ch'[m - 1], cs[m - 1], ch'[m - 1 + 1]);
      DeadEnd(d, e, c, k, p, y, ch[m - 1], cs[m - 1]);
    }
  }

  /** Moving a directory above the current one, or that one itself, leaves the path leading nowhere. */
  lemma PathBroken(s: FS, t: FS, c: Cluster, k: nat, p: Cluster, y: Entry)
    requires Inv(s) && Moves(s.disk, t.disk, c, k, p, y) && t.path == s.path
    requires !StaysOnPath(s, c, k, p, y)
    ensures !Located(t)
  {
    hide Find;
    hide Same;
    hide Format;
    hide Components;
    if Located(t) {
      var d, e := s.disk, t.disk;
      var cs, ch :| TrailTo(s, cs, ch);
      var cs', ch' :| TrailTo(t, cs', ch');
      SpellsComponents(s.path, cs);
      SpellsComponents(s.path, cs');
      TrailChain(d, cs, ch);
      StructureIsTreeLike(d);
      var up :| Chain(d, up) && Last(up) == s.cwd && y.cluster in up;
      ChainUnique(d, up, ch);
      var m :| 0 <= m < |ch| && ch[m] == y.cluster;
      assert Live(d, c, k);
      MovedStep(d, e, c, k, p, y, cs, ch, ch', m);
    }
  }

  /** The source entry keeps its place in the path of the current directory. */
  ghost predicate PathStays(s: FS, src: cstring, dst: cstring)
    requires MoveCreates(s, src, dst)
  {
    var from, to, x := Resolve(s, src), Resolve(s, ParentPath(dst)).dir, Source(s, src);
    || !(x.IsDir() && Above(s.disk, x.cluster, s.cwd))
    || (from.dir == to && Same(Reprint(FileName(dst)), x.Printed()))
  }

  lemma PathStaysIs(s: FS, src: cstring, dst: cstring)
    requires MoveCreates(s, src, dst)
    ensures var from, to := Resolve(s, src), Resolve(s, ParentPath(dst)).dir;
            PathStays(s, src, dst) <==> StaysOnPath(s, from.dir, from.index, to, Arrived(s, src, dst))
  {
    ArrivedPrints(s, src, dst);
    hide Above;
    hide Same;
    hide Format;
    hide Find;
  }

  lemma InvParts(s: FS)
    requires Inv(s)
    ensures Structure(s.disk) && NamesOk(s.disk) && Located(s)
  {
  }

  lemma ChildPath(s: FS, src: cstring, dst: cstring)
    requires Inv(s) && MoveCreates(s, src, dst) && FileName(src) != "" && !DotName(FileName(src))
    ensures Located(MoveFile(s, src, dst).0) <==> PathStays(s, src, dst)
  {
    var from, to, t := Resolve(s, src), Resolve(s, ParentPath(dst)).dir, MoveFile(s, src, dst).0;
    var y := Arrived(s, src, dst);
    MoveTable(s, src, dst);
    PathStaysIs(s, src, dst);
    hide *;
    InvParts(s);
    if StaysOnPath(s, from.dir, from.index, to, y) {
      MoveLocated(s, t, from.dir, from.index, to, y);
    } else {
      PathBroken(s, t, from.dir, from.index, to, y);
    }
  }

  /**
  mv keeps the current path right exactly when its source text ends in a slash, or
  what it moves is neither the current directory nor above it, or stays where it is
  under the name it has.
  */
  lemma MvKeepsPath(s: FS, src: cstring, dst: cstring)
    requires Inv(s) && MoveCreates(s, src, dst) && !DotName(FileName(src))
    ensures Located(MoveFile(s, src, dst).0) <==> FileName(src) == "" || PathStays(s, src, dst)
  {
    hide Located;
    hide PathStays;
    hide Reparent;
    hide Append;
    if FileName(src) != "" {
      ChildPath(s, src, dst);
    } else {
      var t, to := MoveFile(s, src, dst).0, Resolve(s, ParentPath(dst)).dir;
      MvTable(s, src, dst);
      hide MoveFile;
      AppendLocated(s, t, to, Arrived(s, src, dst), Doubles(s, src, dst));
    }
  }

  // ---- mv keeps the invariant ----

  /** The name at the destination is good, unless the destination is lost with what is moved into itself. */
  ghost predicate NameFits(s: FS, src: cstring, dst: cstring)
    requires MoveCreates(s, src, dst)
  {
    var from, to, x := Resolve(s, src), Resolve(s, ParentPath(dst)).dir, Source(s, src);
    || (x.IsDir() && Above(s.disk, x.cluster, to))
    || (Reprint(FileName(dst)) != ""
        && FreeBut(Entries(s.disk, to), Leaving(from.dir, from.index, to), Reprint(FileName(dst))))
  }

  /** What a move has to respect; with a slash after the source it only ever doubles, and may double a file. */
  ghost predicate MoveFits(s: FS, src: cstring, dst: cstring)
    requires MoveCreates(s, src, dst)
  {
    if FileName(src) != "" then NameFits(s, src, dst) && PathStays(s, src, dst)
    else
      Doubles(s, src, dst) ==>
        !Source(s, src).IsDir() && NewName(Entries(s.disk, Resolve(s, ParentPath(dst)).dir), FileName(dst))
  }

  lemma ChildKeeps(s: FS, src: cstring, dst: cstring)
    requires Inv(s) && MoveCreates(s, src, dst) && FileName(src) != "" && Components(src) != []
    requires !DotName(LastName(src))
    ensures Inv(MoveFile(s, src, dst).0) <==> MoveFits(s, src, dst)
    ensures Frozen(s.disk, MoveFile(s, src, dst).0.disk)
  {
    hide Find;
    hide Format;
    hide Same;
    hide Walk;
    hide Components;
    hide Reparent;
    hide MoveFile;
    hide Structure;
    hide NamesOk;
    hide Located;
    hide Above;
    hide FreeBut;
    hide Moves;
    hide Frozen;
    hide PathStays;
    var from, to, t := Resolve(s, src), Resolve(s, ParentPath(dst)).dir, MoveFile(s, src, dst).0;
    var y := Arrived(s, src, dst);
    MoveEnds(s, src, dst);
    MoveTable(s, src, dst);
    ArrivedPrints(s, src, dst);
    MoveStructure(s.disk, t.disk, from.dir, from.index, to, y);
    MoveNamesExactly(s.disk, t.disk, from.dir, from.index, to, y);
    MoveFrozen(s.disk, t.disk, from.dir, from.index, to, y);
    MvKeepsPath(s, src, dst);
  }

  lemma SlashKeeps(s: FS, src: cstring, dst: cstring)
    requires Inv(s) && MoveCreates(s, src, dst) && FileName(src) == "" && Components(src) != []
    requires !DotName(LastName(src))
    ensures Inv(MoveFile(s, src, dst).0) <==> MoveFits(s, src, dst)
    ensures Frozen(s.disk, MoveFile(s, src, dst).0.disk)
  {
    hide Find;
    hide Same;
    hide Format;
    hide Walk;
    hide Components;
    hide Reparent;
    var from, to, t := Resolve(s, src), Resolve(s, ParentPath(dst)).dir, MoveFile(s, src, dst).0;
    var y := Arrived(s, src, dst);
    SlashFrozen(s, src, dst);
    MoveEnds(s, src, dst);
    MvTable(s, src, dst);
    ArrivedPrints(s, src, dst);
    MoveReaches(s, src, dst);
    hide MoveFile;
    hide DotsAt;
    hide Resolve;
    hide Reprint;
    hide Remove;
    hide Located;
    if !Doubles(s, src, dst) {
      SlashUnchanged(s, src, dst);
    } else if y.IsDir() {
      DoubledBreaks(s.disk, t.disk, to, y);
    } else {
      DoubledFileGrows(s, src, dst);
      GrowKeeps(s, t, to, FileName(dst), y);
    }
  }

  /** mv of anything but a dot entry leaves a well-formed state exactly when it respects that. */
  lemma MvKeeps(s: FS, src: cstring, dst: cstring)
    requires Inv(s) && (MoveCreates(s, src, dst) ==> Components(src) != [] && !DotName(LastName(src)))
    ensures Inv(MoveFile(s, src, dst).0) <==> (MoveCreates(s, src, dst) ==> MoveFits(s, src, dst))
    ensures Frozen(s.disk, MoveFile(s, src, dst).0.disk)
  {
    hide MoveFits;
    hide DotName;
    hide Components;
    hide Resolve;
    hide Find;
    if MoveCreates(s, src, dst) {
      if FileName(src) != "" { ChildKeeps(s, src, dst); } else { SlashKeeps(s, src, dst); }
    }
  }
}
