/**
Taking an entry out of a directory and freeing clusters keeps the tree: what rm
in all its forms does to it.
*/
module Shrink {
  import opened CStrings
  import opened Names
  import opened Paths
  import opened Disk
  import opened Tree

  /** e is d with child k of c gone and some other clusters freed. */
  predicate Shrinks(d: Table, e: Table, c: Cluster, k: nat) {
    && ChildAt(d, c, k) && e[c] == Dir(Without(Entries(d, c), k)) && e[0].Dir?
    && forall x: Cluster :: x != c ==> e[x] == d[x] || e[x].Empty?
  }

  /** Where an entry was before the removal. */
  function Origin(c: Cluster, k: nat, p: Cluster, i: nat): nat {
    if p == c && i >= k then i + 1 else i
  }

  lemma EntryOrigin(d: Table, e: Table, c: Cluster, k: nat, p: Cluster, i: nat)
    requires Shrinks(d, e, c, k) && i < |Entries(e, p)|
    ensures Origin(c, k, p, i) < |Entries(d, p)| && Entries(e, p)[i] == Entries(d, p)[Origin(c, k, p, i)]
    ensures ChildAt(e, p, i) <==> ChildAt(d, p, Origin(c, k, p, i))
  {
  }

  /** Nothing becomes reachable when no edge is added. */
  lemma FewerEdges(d: Table, e: Table)
    requires forall p: Cluster, x: Cluster :: HasDir(e, p, x) && Reach(d, p) ==> HasDir(d, p, x)
    ensures forall x: Cluster :: Reach(e, x) ==> Reach(d, x)
  {
    var s := iset x: Cluster | Reach(d, x);
    RootReached(d);
    forall p: Cluster, x: Cluster | p in s && HasDir(e, p, x) ensures x in s {
      ReachStep(d, p, x);
    }
    ReachWithin(e, s);
  }

  lemma ShrinkReach(d: Table, e: Table, c: Cluster, k: nat)
    requires Shrinks(d, e, c, k)
    ensures forall x: Cluster :: Reach(e, x) ==> Reach(d, x)
  {
    forall p: Cluster, x: Cluster | HasDir(e, p, x) && Reach(d, p) ensures HasDir(d, p, x) {
      var i: nat :| ChildAt(e, p, i) && Entries(e, p)[i].IsDir() && Entries(e, p)[i].cluster == x;
      EntryOrigin(d, e, c, k, p, i);
    }
    FewerEdges(d, e);
  }

  lemma LiveOrigin(d: Table, e: Table, c: Cluster, k: nat, p: Cluster, i: nat)
    requires Shrinks(d, e, c, k) && Live(e, p, i)
    ensures Live(d, p, Origin(c, k, p, i)) && Entries(e, p)[i] == Entries(d, p)[Origin(c, k, p, i)]
  {
    ShrinkReach(d, e, c, k);
    EntryOrigin(d, e, c, k, p, i);
  }

  lemma ShrinkDots(d: Table, e: Table, c: Cluster, k: nat)
    requires DotsOk(d) && Shrinks(d, e, c, k)
    ensures DotsOk(e)
  {
    ShrinkReach(d, e, c, k);
    forall x: Cluster | Reach(e, x) && e[x].Dir? ensures DotsAt(e, x) {
      assert DotsAt(d, x);
    }
  }

  lemma ShrinkParents(d: Table, e: Table, c: Cluster, k: nat)
    requires ParentsOk(d) && Shrinks(d, e, c, k)
    ensures ParentsOk(e)
  {
    forall p: Cluster, i: nat | Live(e, p, i) && Entries(e, p)[i].IsDir()
      ensures var t := Entries(e, p)[i].cluster;
              t != 0 && (e[t].Dir? ==> |Entries(e, t)| >= 2 && Entries(e, t)[1].cluster == p)
    {
      LiveOrigin(d, e, c, k, p, i);
    }
  }

  lemma ShrinkNamedOnce(d: Table, e: Table, c: Cluster, k: nat)
    requires NamedOnce(d) && Shrinks(d, e, c, k)
    ensures NamedOnce(e)
  {
    forall p: Cluster, i: nat, q: Cluster, j: nat |
      Live(e, p, i) && Live(e, q, j) && Entries(e, p)[i].IsDir() && Entries(e, p)[i].cluster == Entries(e, q)[j].cluster
      ensures p == q && i == j
    {
      LiveOrigin(d, e, c, k, p, i);
      LiveOrigin(d, e, c, k, q, j);
    }
  }

  lemma ShrinkFilesApart(d: Table, e: Table, c: Cluster, k: nat)
    requires FilesApart(d) && Shrinks(d, e, c, k)
    ensures FilesApart(e)
  {
    forall p: Cluster, i: nat | Live(e, p, i) && !Entries(e, p)[i].IsDir() ensures e[Entries(e, p)[i].cluster].Empty? {
      LiveOrigin(d, e, c, k, p, i);
    }
  }

  lemma ShrinkStructure(d: Table, e: Table, c: Cluster, k: nat)
    requires Structure(d) && Shrinks(d, e, c, k)
    ensures Structure(e)
  {
    ShrinkDots(d, e, c, k);
    ShrinkParents(d, e, c, k);
    ShrinkNamedOnce(d, e, c, k);
    ShrinkFilesApart(d, e, c, k);
  }

  lemma ShrinkNames(d: Table, e: Table, c: Cluster, k: nat)
    requires NamesOk(d) && Shrinks(d, e, c, k)
    ensures NamesOk(e)
  {
    ShrinkReach(d, e, c, k);
    forall x: Cluster | Reach(e, x) ensures Distinct(Entries(e, x)) {
      forall i, j | 0 <= i < j < |Entries(e, x)| ensures !Same(Entries(e, x)[i].Printed(), Entries(e, x)[j].Printed()) {
        EntryOrigin(d, e, c, k, x, i);
        EntryOrigin(d, e, c, k, x, j);
      }
    }
    forall p: Cluster, i: nat | Live(e, p, i)
      ensures Entries(e, p)[i].Printed() != "" && (Entries(e, p)[i].IsDir() ==> '/' !in Entries(e, p)[i].Printed())
    {
      LiveOrigin(d, e, c, k, p, i);
    }
  }

  /** The way to the current directory survives when the entry is not on it and nothing on it is freed. */
  lemma ShrinkLocated(s: FS, t: FS, k: nat)
    requires Located(s) && TreeLike(s.disk) && Shrinks(s.disk, t.disk, s.cwd, k) && t.cwd == s.cwd && t.path == s.path
    requires forall x: Cluster :: x != s.cwd && DirNamed(s.disk, x) && t.disk[x] != s.disk[x] ==>
               HasDir(s.disk, s.cwd, x)
    ensures Located(t)
  {
    var d, e := s.disk, t.disk;
    var cs, ch :| TrailTo(s, cs, ch);
    TrailChain(d, cs, ch);
    forall m | 0 <= m < |cs| ensures Into(e, ch[m], cs[m], ch[m + 1]) {
      assert Into(d, ch[m], cs[m], ch[m + 1]);
      ChainDistinct(d, ch, m, |ch| - 1);
      if m > 0 {
        ChainLink(d, ch, m);
        assert DirNamed(d, ch[m]);
        if HasDir(d, s.cwd, ch[m]) {
          ChainDistinct(d, ch, m - 1, |ch| - 1);
        }
      }
      assert e[ch[m]] == d[ch[m]];
    }
    LocatedBy(t, cs, ch);
  }
}
