/**
Adding one entry that names an unused slot: what touch, cp and mkdir do to the
tree, and exactly when the allocator's slot is good enough for it. The allocator
looks at the directory table only, so it can return a slot that a file, or a
directory that was never materialised, already names.
*/
module Grow {
  import opened CStrings
  import opened Names
  import opened Paths
  import opened Disk
  import opened Tree

  /** e is d with x added to p; x names an unused slot, which gets dot entries if x is a directory. */
  predicate Grows(d: Table, e: Table, p: Cluster, x: Entry) {
    var n := x.cluster;
    && n != 0 && d[p].Dir? && d[n].Empty?
    && e[p] == Dir(Entries(d, p) + [x])
    && e[n] == (if x.IsDir() then Dir(DotEntries(n, p)) else Empty)
    && forall y: Cluster :: y != p && y != n ==> e[y] == d[y]
  }

  /** The slot is not yet taken in a way that the new entry would clash with. */
  ghost predicate Fresh(d: Table, x: Entry) {
    if x.IsDir() then !Named(d, x.cluster) else !DirNamed(d, x.cluster)
  }

  lemma OldChild(d: Table, e: Table, p: Cluster, x: Entry, q: Cluster, i: nat)
    requires Grows(d, e, p, x) && ChildAt(d, q, i)
    ensures ChildAt(e, q, i) && Entries(e, q)[i] == Entries(d, q)[i]
  {
  }

  lemma NewChild(d: Table, e: Table, p: Cluster, x: Entry, q: Cluster, i: nat)
    requires Grows(d, e, p, x) && ChildAt(e, q, i)
    ensures if q == p && i == |Entries(d, p)| then Entries(e, q)[i] == x
            else ChildAt(d, q, i) && Entries(e, q)[i] == Entries(d, q)[i]
  {
  }

  /** Everything stays reachable, and only a new directory is added. */
  lemma GrowReach(d: Table, e: Table, p: Cluster, x: Entry)
    requires Grows(d, e, p, x)
    ensures forall y: Cluster :: Reach(d, y) ==> Reach(e, y)
    ensures forall y: Cluster :: Reach(e, y) ==> Reach(d, y) || (x.IsDir() && y == x.cluster)
  {
    RootReached(d);
    RootReached(e);
    var s := iset y: Cluster | Reach(e, y);
    forall q: Cluster, y: Cluster | q in s && HasDir(d, q, y) ensures y in s {
      var i: nat :| ChildAt(d, q, i) && Entries(d, q)[i].IsDir() && Entries(d, q)[i].cluster == y;
      OldChild(d, e, p, x, q, i);
      ReachStep(e, q, y);
    }
    ReachWithin(d, s);
    var t := iset y: Cluster | Reach(d, y) || (x.IsDir() && y == x.cluster);
    forall q: Cluster, y: Cluster | q in t && HasDir(e, q, y) ensures y in t {
      var i: nat :| ChildAt(e, q, i) && Entries(e, q)[i].IsDir() && Entries(e, q)[i].cluster == y;
      NewChild(d, e, p, x, q, i);
      if !(q == p && i == |Entries(d, p)|) {
        assert HasDir(d, q, y);
        ReachStep(d, q, y);
      }
    }
    ReachWithin(e, t);
  }

  /** A live entry of the grown table is the new one, or was live before. */
  lemma LiveOrNew(d: Table, e: Table, p: Cluster, x: Entry, q: Cluster, i: nat)
    requires Grows(d, e, p, x) && Live(e, q, i)
    ensures if q == p && i == |Entries(d, p)| then Entries(e, q)[i] == x
            else Live(d, q, i) && Entries(e, q)[i] == Entries(d, q)[i]
  {
    GrowReach(d, e, p, x);
    NewChild(d, e, p, x, q, i);
  }

  lemma DotsPrint(self: Cluster, parent: Cluster)
    ensures DotEntries(self, parent)[0].Printed() == "." && DotEntries(self, parent)[1].Printed() == ".."
  {
    var one: cstring, two: cstring, none: cstring := ".", "..", "";
    FormatPadded(one, none);
    FormatPadded(two, none);
    assert Pad(one, 8) + Pad(none, 3) == ".          ";
    assert Pad(two, 8) + Pad(none, 3) == "..         ";
  }

  lemma GrowDots(d: Table, e: Table, p: Cluster, x: Entry)
    requires DotsOk(d) && Grows(d, e, p, x)
    ensures DotsOk(e)
  {
    GrowReach(d, e, p, x);
    DotsPrint(x.cluster, p);
    forall c: Cluster | Reach(e, c) && e[c].Dir? ensures DotsAt(e, c) {
      if c != x.cluster { assert DotsAt(d, c); }
    }
  }

  lemma GrowParents(d: Table, e: Table, p: Cluster, x: Entry)
    requires ParentsOk(d) && Grows(d, e, p, x) && Fresh(d, x)
    ensures ParentsOk(e)
  {
    forall q: Cluster, i: nat | Live(e, q, i) && Entries(e, q)[i].IsDir()
      ensures var t := Entries(e, q)[i].cluster;
              t != 0 && (e[t].Dir? ==> |Entries(e, t)| >= 2 && Entries(e, t)[1].cluster == q)
    {
      LiveOrNew(d, e, p, x, q, i);
      if !(q == p && i == |Entries(d, p)|) {
        assert HasDir(d, q, Entries(e, q)[i].cluster);
      }
    }
  }

  lemma GrowNamedOnce(d: Table, e: Table, p: Cluster, x: Entry)
    requires NamedOnce(d) && Grows(d, e, p, x) && Fresh(d, x)
    ensures NamedOnce(e)
  {
    forall q: Cluster, i: nat, r: Cluster, j: nat |
      Live(e, q, i) && Live(e, r, j) && Entries(e, q)[i].IsDir() && Entries(e, q)[i].cluster == Entries(e, r)[j].cluster
      ensures q == r && i == j
    {
      LiveOrNew(d, e, p, x, q, i);
      LiveOrNew(d, e, p, x, r, j);
      if !(q == p && i == |Entries(d, p)|) {
        assert HasDir(d, q, Entries(e, q)[i].cluster);
      }
    }
  }

  lemma GrowFilesApart(d: Table, e: Table, p: Cluster, x: Entry)
    requires FilesApart(d) && Grows(d, e, p, x) && Fresh(d, x)
    ensures FilesApart(e)
  {
    forall q: Cluster, i: nat | Live(e, q, i) && !Entries(e, q)[i].IsDir() ensures e[Entries(e, q)[i].cluster].Empty? {
      LiveOrNew(d, e, p, x, q, i);
    }
  }

  lemma Clash(e: Table, q: Cluster, i: nat, p: Cluster, j: nat)
    requires Live(e, q, i) && Live(e, p, j) && (q != p || i != j)
    requires Entries(e, q)[i].IsDir() && Entries(e, q)[i].cluster == Entries(e, p)[j].cluster
    ensures !NamedOnce(e)
  {
  }

  /** With a slot that is already named, two live entries clash. */
  lemma StaleBreaks(d: Table, e: Table, p: Cluster, x: Entry)
    requires DotsAt(d, p) && Grows(d, e, p, x) && Reach(d, p) && !Fresh(d, x)
    ensures !NamedOnce(e)
  {
    GrowReach(d, e, p, x);
    var n := |Entries(d, p)|;
    assert Live(e, p, n) && Entries(e, p)[n] == x;
    if x.IsDir() {
      var q: Cluster, i: nat :| Live(d, q, i) && Entries(d, q)[i].cluster == x.cluster;
      OldChild(d, e, p, x, q, i);
      Clash(e, p, n, q, i);
    } else {
      var q: Cluster :| Reach(d, q) && HasDir(d, q, x.cluster);
      var i: nat :| ChildAt(d, q, i) && Entries(d, q)[i].IsDir() && Entries(d, q)[i].cluster == x.cluster;
      OldChild(d, e, p, x, q, i);
      Clash(e, q, i, p, n);
    }
  }

  /** A fresh slot is enough, and nothing less is. */
  lemma GrowStructure(d: Table, e: Table, p: Cluster, x: Entry)
    requires Structure(d) && Grows(d, e, p, x) && Reach(d, p)
    ensures Structure(e) <==> Fresh(d, x)
  {
    if Fresh(d, x) {
      GrowDots(d, e, p, x);
      GrowParents(d, e, p, x);
      GrowNamedOnce(d, e, p, x);
      GrowFilesApart(d, e, p, x);
    } else {
      StaleBreaks(d, e, p, x);
    }
  }

  lemma DistinctAppend(es: seq<Entry>, x: Entry)
    requires Distinct(es) && Find(es, x.Printed()) == |es|
    ensures Distinct(es + [x])
  {
  }

  lemma DotsDistinct(self: Cluster, parent: Cluster)
    ensures Distinct(DotEntries(self, parent))
  {
    DotsPrint(self, parent);
  }

  lemma GrowNames(d: Table, e: Table, p: Cluster, x: Entry)
    requires NamesOk(d) && Grows(d, e, p, x) && Reach(d, p)
    requires x.Printed() != "" && (x.IsDir() ==> '/' !in x.Printed())
    requires Find(Entries(d, p), x.Printed()) == |Entries(d, p)|
    ensures NamesOk(e)
  {
    GrowReach(d, e, p, x);
    DotsDistinct(x.cluster, p);
    DistinctAppend(Entries(d, p), x);
    forall c: Cluster | Reach(e, c) ensures Distinct(Entries(e, c)) {
      if c != x.cluster {
        assert Distinct(Entries(d, c));
      }
    }
    forall q: Cluster, i: nat | Live(e, q, i)
      ensures Entries(e, q)[i].Printed() != "" && (Entries(e, q)[i].IsDir() ==> '/' !in Entries(e, q)[i].Printed())
    {
      LiveOrNew(d, e, p, x, q, i);
    }
  }

  lemma DistinctAppendOnly(es: seq<Entry>, x: Entry)
    requires Distinct(es)
    ensures Distinct(es + [x]) <==> Find(es, x.Printed()) == |es|
  {
    hide Find;
    hide Same;
    var i := Find(es, x.Printed());
    if i < |es| {
      assert (es + [x])[i] == es[i] && (es + [x])[|es|] == x;
    } else {
      DistinctAppend(es, x);
    }
  }

  /** The names stay good exactly when the new one is not empty and not there yet. */
  lemma GrowNamesExactly(d: Table, e: Table, p: Cluster, x: Entry)
    requires NamesOk(d) && Grows(d, e, p, x) && Reach(d, p) && DotsAt(d, p) && (x.IsDir() ==> '/' !in x.Printed())
    ensures NamesOk(e) <==> x.Printed() != "" && Find(Entries(d, p), x.Printed()) == |Entries(d, p)|
  {
    hide Find;
    hide Same;
    hide Format;
    if x.Printed() != "" && Find(Entries(d, p), x.Printed()) == |Entries(d, p)| {
      GrowNames(d, e, p, x);
    } else {
      GrowReach(d, e, p, x);
      assert Distinct(Entries(d, p)) && Live(e, p, |Entries(d, p)|);
      DistinctAppendOnly(Entries(d, p), x);
    }
  }

  lemma FindAppend(es: seq<Entry>, x: Entry, name: string)
    requires Find(es, name) < |es|
    ensures Find(es + [x], name) == Find(es, name)
  {
    FindUnique(es + [x], name, Find(es, name));
  }

  lemma GrowLocated(s: FS, t: FS, p: Cluster, x: Entry)
    requires Located(s) && Grows(s.disk, t.disk, p, x) && t.cwd == s.cwd && t.path == s.path
    ensures Located(t)
  {
    var e := t.disk;
    var cs, ch :| TrailTo(s, cs, ch);
    forall m | 0 <= m < |cs| ensures Into(e, ch[m], cs[m], ch[m + 1]) {
      assert Into(s.disk, ch[m], cs[m], ch[m + 1]);
      if ch[m] == p { FindAppend(Entries(s.disk, p), x, cs[m]); }
    }
    LocatedBy(t, cs, ch);
  }
}
