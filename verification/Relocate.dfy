/**
Moving an entry from one directory to another and pointing a moved directory's
".." at its new parent: what mv does to the tree.
*/
module Relocate {
  import opened CStrings
  import opened Names
  import opened Paths
  import opened Disk
  import opened Tree
  import opened Shrink
  import opened Grow

  /** e is d with live child k of c moved to the end of p, where it is called y. */
  ghost predicate Moves(d: Table, e: Table, c: Cluster, k: nat, p: Cluster, y: Entry) {
    && Live(d, c, k) && Reach(d, p) && d[p].Dir?
    && y == Entries(d, c)[k].(name := y.name)
    && var m := Append(Reparent(d, y, p), p, y);
       k < |Entries(m, c)| && e == Remove(m, c, k)
  }

  /** Where a child was before the move. */
  function MovedFrom(e: Table, c: Cluster, k: nat, p: Cluster, q: Cluster, i: nat): (Cluster, nat) {
    if q == p && i + 1 == |Entries(e, p)| then (c, k) else (q, Origin(c, k, q, i))
  }

  lemma Reparented(d: Table, y: Entry, p: Cluster, q: Cluster)
    ensures var r := Reparent(d, y, p);
            && (r[q].Dir? <==> d[q].Dir?) && |Entries(r, q)| == |Entries(d, q)|
            && forall i :: 0 <= i < |Entries(d, q)| ==>
                 Entries(r, q)[i] == if y.IsDir() && y.cluster != 0 && q == y.cluster && i == 1
                                     then Entries(d, q)[i].(cluster := p) else Entries(d, q)[i]
  {
  }

  lemma EntriesMoved(d: Table, e: Table, c: Cluster, k: nat, p: Cluster, y: Entry, q: Cluster)
    requires Moves(d, e, c, k, p, y)
    ensures e[q].Dir? <==> d[q].Dir?
    ensures var es := Entries(Reparent(d, y, p), q) + if q == p then [y] else [];
            if q == c then k < |es| && Entries(e, q) == Without(es, k) else Entries(e, q) == es
  {
    Reparented(d, y, p, q);
  }

  lemma SlotsKept(d: Table, e: Table, c: Cluster, k: nat, p: Cluster, y: Entry, q: Cluster)
    requires Moves(d, e, c, k, p, y) && DotsAt(d, q)
    ensures |Entries(e, q)| >= 2 && Entries(e, q)[0] == Entries(d, q)[0]
    ensures Entries(e, q)[1] == if y.IsDir() && y.cluster != 0 && q == y.cluster
                                then Entries(d, q)[1].(cluster := p) else Entries(d, q)[1]
  {
    Reparented(d, y, p, q);
    EntriesMoved(d, e, c, k, p, y, q);
  }

  /** Which element of a sequence is at i once y was added at the end, or element k taken out, or both. */
  lemma EntryAfter(rs: seq<Entry>, y: Entry, added: bool, removed: bool, k: nat, i: nat)
    requires removed ==> k < |rs|
    requires i < |rs| + (if added then 1 else 0) - (if removed then 1 else 0)
    ensures var es := rs + if added then [y] else [];
            var out := if removed then Without(es, k) else es;
            var j := if removed && i >= k then i + 1 else i;
            out[i] == if added && i + 1 == |out| then y else if j < |rs| then rs[j] else y
  {
  }

  lemma ChildMoved(d: Table, e: Table, c: Cluster, k: nat, p: Cluster, y: Entry, q: Cluster, i: nat)
    requires Moves(d, e, c, k, p, y) && ChildAt(e, q, i)
    ensures var (r, j) := MovedFrom(e, c, k, p, q, i);
            ChildAt(d, r, j) && Entries(e, q)[i] == if q == p && i + 1 == |Entries(e, p)| then y else Entries(d, r)[j]
  {
    Reparented(d, y, p, q);
    EntriesMoved(d, e, c, k, p, y, q);
    EntryAfter(Entries(Reparent(d, y, p), q), y, q == p, q == c, k, i);
  }

  lemma OldChildKept(d: Table, e: Table, c: Cluster, k: nat, p: Cluster, y: Entry, q: Cluster, i: nat)
    requires Moves(d, e, c, k, p, y) && ChildAt(d, q, i) && !(q == c && i == k)
    ensures var j := if q == c && i > k then i - 1 else i;
            ChildAt(e, q, j) && Entries(e, q)[j] == Entries(d, q)[i]
  {
    Reparented(d, y, p, q);
    EntriesMoved(d, e, c, k, p, y, q);
  }

  /** The moved entry ends up last in its new directory. */
  lemma NewChildLast(d: Table, e: Table, c: Cluster, k: nat, p: Cluster, y: Entry)
    requires Moves(d, e, c, k, p, y) && DotsAt(d, p)
    ensures ChildAt(e, p, |Entries(e, p)| - 1) && Entries(e, p)[|Entries(e, p)| - 1] == y
  {
    Reparented(d, y, p, p);
    EntriesMoved(d, e, c, k, p, y, p);
  }

  /** Nothing becomes reachable by a move. */
  lemma MoveReach(d: Table, e: Table, c: Cluster, k: nat, p: Cluster, y: Entry)
    requires Moves(d, e, c, k, p, y)
    ensures forall x: Cluster :: Reach(e, x) ==> Reach(d, x)
  {
    var s := iset x: Cluster | Reach(d, x);
    RootReached(d);
    forall q: Cluster, x: Cluster | q in s && HasDir(e, q, x) ensures x in s {
      var i: nat :| ChildAt(e, q, i) && Entries(e, q)[i].IsDir() && Entries(e, q)[i].cluster == x;
      ChildMoved(d, e, c, k, p, y, q, i);
      var (r, j) := MovedFrom(e, c, k, p, q, i);
      assert HasDir(d, r, x);
      ReachStep(d, r, x);
    }
    ReachWithin(e, s);
  }

  lemma LiveMoved(d: Table, e: Table, c: Cluster, k: nat, p: Cluster, y: Entry, q: Cluster, i: nat)
    requires Moves(d, e, c, k, p, y) && Live(e, q, i)
    ensures var (r, j) := MovedFrom(e, c, k, p, q, i);
            Live(d, r, j) && Entries(e, q)[i] == if q == p && i + 1 == |Entries(e, p)| then y else Entries(d, r)[j]
  {
    MoveReach(d, e, c, k, p, y);
    ChildMoved(d, e, c, k, p, y, q, i);
  }

  lemma MoveDots(d: Table, e: Table, c: Cluster, k: nat, p: Cluster, y: Entry)
    requires DotsOk(d) && Moves(d, e, c, k, p, y)
    ensures DotsOk(e)
  {
    MoveReach(d, e, c, k, p, y);
    forall q: Cluster | Reach(e, q) && e[q].Dir? ensures DotsAt(e, q) {
      EntriesMoved(d, e, c, k, p, y, q);
      assert DotsAt(d, q);
      SlotsKept(d, e, c, k, p, y, q);
    }
  }

  lemma MoveParents(d: Table, e: Table, c: Cluster, k: nat, p: Cluster, y: Entry)
    requires DotsOk(d) && ParentsOk(d) && NamedOnce(d) && Moves(d, e, c, k, p, y)
    ensures ParentsOk(e)
  {
    forall q: Cluster, i: nat | Live(e, q, i) && Entries(e, q)[i].IsDir()
      ensures var t := Entries(e, q)[i].cluster;
              t != 0 && (e[t].Dir? ==> |Entries(e, t)| >= 2 && Entries(e, t)[1].cluster == q)
    {
      LiveMoved(d, e, c, k, p, y, q, i);
      var (r, j) := MovedFrom(e, c, k, p, q, i);
      var t := Entries(e, q)[i].cluster;
      assert HasDir(d, r, t);
      ReachStep(d, r, t);
      EntriesMoved(d, e, c, k, p, y, t);
      if e[t].Dir? {
        assert DotsAt(d, t);
        SlotsKept(d, e, c, k, p, y, t);
      }
    }
  }

  lemma MoveNamedOnce(d: Table, e: Table, c: Cluster, k: nat, p: Cluster, y: Entry)
    requires NamedOnce(d) && Moves(d, e, c, k, p, y)
    ensures NamedOnce(e)
  {
    forall q: Cluster, i: nat, r: Cluster, j: nat |
      Live(e, q, i) && Live(e, r, j) && Entries(e, q)[i].IsDir() && Entries(e, q)[i].cluster == Entries(e, r)[j].cluster
      ensures q == r && i == j
    {
      LiveMoved(d, e, c, k, p, y, q, i);
      LiveMoved(d, e, c, k, p, y, r, j);
      assert MovedFrom(e, c, k, p, q, i) == MovedFrom(e, c, k, p, r, j);
    }
  }

  lemma MoveFilesApart(d: Table, e: Table, c: Cluster, k: nat, p: Cluster, y: Entry)
    requires FilesApart(d) && Moves(d, e, c, k, p, y)
    ensures FilesApart(e)
  {
    forall q: Cluster, i: nat | Live(e, q, i) && !Entries(e, q)[i].IsDir() ensures e[Entries(e, q)[i].cluster].Empty? {
      LiveMoved(d, e, c, k, p, y, q, i);
      EntriesMoved(d, e, c, k, p, y, Entries(e, q)[i].cluster);
    }
  }

  /** The tree keeps its structure wherever the entry goes, even into its own subtree. */
  lemma MoveStructure(d: Table, e: Table, c: Cluster, k: nat, p: Cluster, y: Entry)
    requires Structure(d) && Moves(d, e, c, k, p, y)
    ensures Structure(e)
  {
    MoveDots(d, e, c, k, p, y);
    MoveParents(d, e, c, k, p, y);
    MoveNamedOnce(d, e, c, k, p, y);
    MoveFilesApart(d, e, c, k, p, y);
    EntriesMoved(d, e, c, k, p, y, 0);
  }

  // ---- names and the way to the current directory ----

  predicate SamePrinted(es: seq<Entry>, rs: seq<Entry>) {
    |es| == |rs| && forall i :: 0 <= i < |es| ==> es[i].Printed() == rs[i].Printed()
  }

  lemma FindSamePrinted(es: seq<Entry>, rs: seq<Entry>, name: string)
    requires SamePrinted(es, rs)
    ensures Find(rs, name) == Find(es, name)
  {
    FindUnique(rs, name, Find(es, name));
  }

  /** No entry but number k, if there is one, prints as n ignoring case. */
  predicate FreeBut(es: seq<Entry>, k: int, n: string) {
    forall i :: 0 <= i < |es| && i != k ==> !Same(es[i].Printed(), n)
  }

  /** The entry of directory p that is moved away, or -1 when it comes from another directory. */
  function Leaving(c: Cluster, k: nat, p: Cluster): int {
    if p == c then k else -1
  }

  lemma DistinctAfter(es: seq<Entry>, rs: seq<Entry>, y: Entry, added: bool, removed: bool, k: nat)
    requires SamePrinted(es, rs) && Distinct(es)
    requires added ==> FreeBut(es, if removed then k else -1, y.Printed())
    requires removed ==> k < |es|
    ensures var all := rs + if added then [y] else [];
            Distinct(if removed then Without(all, k) else all)
  {
    hide Same;
    hide Format;
    var all := rs + if added then [y] else [];
    var out := if removed then Without(all, k) else all;
    forall i, j | 0 <= i < j < |out| ensures !Same(out[i].Printed(), out[j].Printed()) {
      EntryAfter(rs, y, added, removed, k, i);
      EntryAfter(rs, y, added, removed, k, j);
    }
  }

  lemma MoveDistinct(d: Table, e: Table, c: Cluster, k: nat, p: Cluster, y: Entry, q: Cluster)
    requires Distinct(Entries(d, q)) && Moves(d, e, c, k, p, y)
    requires FreeBut(Entries(d, p), Leaving(c, k, p), y.Printed())
    ensures Distinct(Entries(e, q))
  {
    Reparented(d, y, p, q);
    EntriesMoved(d, e, c, k, p, y, q);
    DistinctAfter(Entries(d, q), Entries(Reparent(d, y, p), q), y, q == p, q == c, k);
  }

  lemma ClashAfter(es: seq<Entry>, rs: seq<Entry>, y: Entry, removed: bool, k: nat, i: nat)
    requires SamePrinted(es, rs) && (removed ==> k < |es| && i != k)
    requires i < |es| && Same(es[i].Printed(), y.Printed())
    ensures !Distinct(if removed then Without(rs + [y], k) else rs + [y])
  {
    hide Same;
    hide Format;
    var out := if removed then Without(rs + [y], k) else rs + [y];
    var j, last := if removed && i > k then i - 1 else i, |out| - 1;
    assert out[j] == rs[i] && out[last] == y && j < last;
  }

  lemma AtDestination(d: Table, e: Table, c: Cluster, k: nat, p: Cluster, y: Entry) returns (rs: seq<Entry>)
    requires Moves(d, e, c, k, p, y)
    ensures SamePrinted(Entries(d, p), rs) && k < |Entries(d, c)|
    ensures p == c ==> k < |rs|
    ensures Entries(e, p) == if p == c then Without(rs + [y], k) else rs + [y]
  {
    hide Format;
    rs := Entries(Reparent(d, y, p), p);
    Reparented(d, y, p, p);
    EntriesMoved(d, e, c, k, p, y, p);
  }

  /** An entry of the destination that prints like the moved one stays there beside it. */
  lemma MoveClashes(d: Table, e: Table, c: Cluster, k: nat, p: Cluster, y: Entry)
    requires Moves(d, e, c, k, p, y) && !FreeBut(Entries(d, p), Leaving(c, k, p), y.Printed())
    ensures !Distinct(Entries(e, p))
  {
    hide Moves;
    hide Same;
    hide Format;
    hide Distinct;
    hide SamePrinted;
    var rs := AtDestination(d, e, c, k, p, y);
    var i :| 0 <= i < |Entries(d, p)| && i != Leaving(c, k, p) && Same(Entries(d, p)[i].Printed(), y.Printed());
    ClashAfter(Entries(d, p), rs, y, p == c, k, i);
  }

  lemma MoveNames(d: Table, e: Table, c: Cluster, k: nat, p: Cluster, y: Entry)
    requires NamesOk(d) && Moves(d, e, c, k, p, y)
    requires y.Printed() != "" && (y.IsDir() ==> '/' !in y.Printed())
    requires FreeBut(Entries(d, p), Leaving(c, k, p), y.Printed())
    ensures NamesOk(e)
  {
    MoveReach(d, e, c, k, p, y);
    forall q: Cluster | Reach(e, q) ensures Distinct(Entries(e, q)) {
      MoveDistinct(d, e, c, k, p, y, q);
    }
    forall q: Cluster, i: nat | Live(e, q, i)
      ensures Entries(e, q)[i].Printed() != "" && (Entries(e, q)[i].IsDir() ==> '/' !in Entries(e, q)[i].Printed())
    {
      LiveMoved(d, e, c, k, p, y, q, i);
    }
  }

  lemma FindWithout(es: seq<Entry>, k: nat, name: string)
    requires k < |es| && Find(es, name) < |es| && Find(es, name) != k
    ensures Find(Without(es, k), name) == if k < Find(es, name) then Find(es, name) - 1 else Find(es, name)
  {
    hide Find;
    hide Same;
    var i, rest := Find(es, name), Without(es, k);
    assert forall m :: 0 <= m < |rest| ==> rest[m] == if m < k then es[m] else es[m + 1];
    FindUnique(rest, name, if k < i then i - 1 else i);
  }

  /** A lookup that does not end at the moved entry still finds the same one. */
  lemma FindMoved(d: Table, e: Table, c: Cluster, k: nat, p: Cluster, y: Entry, q: Cluster, name: cstring)
    requires Moves(d, e, c, k, p, y)
    requires Find(Entries(d, q), name) < |Entries(d, q)| && !(q == c && Find(Entries(d, q), name) == k)
    ensures var i := Find(Entries(d, q), name);
            Find(Entries(e, q), name) == if q == c && i > k then i - 1 else i
  {
    var rs := Entries(Reparent(d, y, p), q);
    Reparented(d, y, p, q);
    EntriesMoved(d, e, c, k, p, y, q);
    FindSamePrinted(Entries(d, q), rs, name);
    var all := rs + if q == p then [y] else [];
    assert Find(all, name) == Find(rs, name) by {
      if q == p { FindAppend(rs, y, name); } else { assert all == rs; }
    }
    if q == c { FindWithout(all, k, name); }
  }

  /** A lookup that leads to a subdirectory other than by the moved entry still does. */
  lemma IntoKept(d: Table, e: Table, c: Cluster, k: nat, p: Cluster, y: Entry, q: Cluster, name: cstring, x: Cluster)
    requires Moves(d, e, c, k, p, y) && Into(d, q, name, x)
    requires !(q == c && Find(Entries(d, q), name) == k)
    ensures Into(e, q, name, x)
  {
    hide Find;
    hide Reach;
    hide Moves;
    OldChildKept(d, e, c, k, p, y, q, Find(Entries(d, q), name));
    FindMoved(d, e, c, k, p, y, q, name);
  }

  /** One that leads to the moved entry does when the entry stays in its directory under the same name. */
  lemma IntoRenamed(d: Table, e: Table, c: Cluster, k: nat, y: Entry, name: cstring, x: Cluster)
    requires Moves(d, e, c, k, c, y) && Into(d, c, name, x) && Find(Entries(d, c), name) == k
    requires Distinct(Entries(d, c)) && Same(y.Printed(), Entries(d, c)[k].Printed())
    ensures Into(e, c, name, x)
  {
    hide Find;
    hide Same;
    hide Format;
    hide Reach;
    var es, rs, out := Entries(d, c), Entries(Reparent(d, y, c), c), Entries(e, c);
    Reparented(d, y, c, c);
    EntriesMoved(d, e, c, k, c, y, c);
    forall i | 0 <= i < |out| - 1 ensures !Same(out[i].Printed(), name) {
      EntryAfter(rs, y, true, true, k, i);
      var j := if i >= k then i + 1 else i;
      assert !Same(es[if j < k then j else k].Printed(), es[if j < k then k else j].Printed());
      SameEquivalence(es[j].Printed(), name, es[k].Printed());
      SameEquivalence(es[k].Printed(), name, es[k].Printed());
      SameEquivalence(es[j].Printed(), es[k].Printed(), es[j].Printed());
    }
    EntryAfter(rs, y, true, true, k, |out| - 1);
    SameEquivalence(y.Printed(), es[k].Printed(), name);
    FindUnique(out, name, |out| - 1);
  }

  /** The moved entry keeps its place in the path: it is no directory on it, or is renamed to the same name. */
  ghost predicate StaysOnPath(s: FS, c: Cluster, k: nat, p: Cluster, y: Entry)
    requires k < |Entries(s.disk, c)|
  {
    || !(y.IsDir() && Above(s.disk, y.cluster, s.cwd))
    || (c == p && Same(y.Printed(), Entries(s.disk, c)[k].Printed()))
  }

  lemma MoveLocated(s: FS, t: FS, c: Cluster, k: nat, p: Cluster, y: Entry)
    requires Located(s) && NamesOk(s.disk)
    requires Moves(s.disk, t.disk, c, k, p, y) && t.cwd == s.cwd && t.path == s.path
    requires StaysOnPath(s, c, k, p, y)
    ensures Located(t)
  {
    var d, e := s.disk, t.disk;
    var cs, ch :| TrailTo(s, cs, ch);
    TrailChain(d, cs, ch);
    forall m | 0 <= m < |cs| ensures Into(e, ch[m], cs[m], ch[m + 1]) {
      assert Into(d, ch[m], cs[m], ch[m + 1]) && ch[m + 1] in ch;
      if ch[m] == c && Find(Entries(d, c), cs[m]) == k {
        assert y.cluster == ch[m + 1] && y.IsDir();
        assert Live(d, c, k) && Distinct(Entries(d, c));
        IntoRenamed(d, e, c, k, y, cs[m], ch[m + 1]);
      } else {
        IntoKept(d, e, c, k, p, y, ch[m], cs[m], ch[m + 1]);
      }
    }
    LocatedBy(t, cs, ch);
  }

  // ---- what a move can lose ----

  lemma {:induction false} ChainKept(d: Table, e: Table, c: Cluster, k: nat, p: Cluster, y: Entry, ch: seq<Cluster>)
    requires Moves(d, e, c, k, p, y) && Chain(d, ch) && (y.IsDir() ==> y.cluster !in ch)
    ensures Chain(e, ch)
  {
    forall m | 0 <= m < |ch| - 1 ensures HasDir(e, ch[m], ch[m + 1]) {
      assert HasDir(d, ch[m], ch[m + 1]);
      var i: nat :| ChildAt(d, ch[m], i) && Entries(d, ch[m])[i].IsDir() && Entries(d, ch[m])[i].cluster == ch[m + 1];
      assert ch[m + 1] in ch;
      OldChildKept(d, e, c, k, p, y, ch[m], i);
    }
  }

  lemma NothingLost(d: Table, e: Table, c: Cluster, k: nat, p: Cluster, y: Entry)
    requires Structure(d) && Moves(d, e, c, k, p, y)
    requires !(y.IsDir() && Above(d, y.cluster, p))
    ensures forall x: Cluster :: Reach(d, x) ==> Reach(e, x)
  {
    var ch :| Chain(d, ch) && Last(ch) == p;
    ChainKept(d, e, c, k, p, y, ch);
    assert Reach(e, p) && DotsAt(d, p);
    NewChildLast(d, e, c, k, p, y);
    RootReached(e);
    var s := iset x: Cluster | Reach(e, x);
    forall q: Cluster, x: Cluster | q in s && HasDir(d, q, x) ensures x in s {
      var i: nat :| ChildAt(d, q, i) && Entries(d, q)[i].IsDir() && Entries(d, q)[i].cluster == x;
      if q == c && i == k {
        assert HasDir(e, p, x);
        ReachStep(e, p, x);
      } else {
        OldChildKept(d, e, c, k, p, y, q, i);
        assert HasDir(e, q, x);
        ReachStep(e, q, x);
      }
    }
    ReachWithin(d, s);
  }

  /** What lies under t is reached through t. */
  lemma AboveStep(d: Table, t: Cluster, q: Cluster, x: Cluster)
    requires TreeLike(d) && Reach(d, q) && HasDir(d, q, x) && Above(d, t, x) && t != x
    ensures Above(d, t, q)
  {
    var ch :| Chain(d, ch) && Last(ch) == x && t in ch;
    var up :| Chain(d, up) && Last(up) == q;
    assert Chain(d, up + [x]) && Last(up + [x]) == x;
    ChainUnique(d, ch, up + [x]);
    assert t in up;
  }

  lemma ChildReached(d: Table, c: Cluster, k: nat)
    requires Live(d, c, k) && Entries(d, c)[k].IsDir()
    ensures Reach(d, Entries(d, c)[k].cluster)
  {
    assert HasDir(d, c, Entries(d, c)[k].cluster);
    ReachStep(d, c, Entries(d, c)[k].cluster);
  }

  /** After a move into t's own subtree, no directory outside it names t any more. */
  lemma EdgeOutside(d: Table, e: Table, c: Cluster, k: nat, p: Cluster, y: Entry, q: Cluster, x: Cluster)
    requires Structure(d) && Moves(d, e, c, k, p, y) && y.IsDir() && q != p
    requires Reach(d, q) && HasDir(e, q, x)
    ensures HasDir(d, q, x) && x != y.cluster
  {
    hide DotsOk;
    hide ParentsOk;
    hide Reach;
    var i: nat :| ChildAt(e, q, i) && Entries(e, q)[i].IsDir() && Entries(e, q)[i].cluster == x;
    ChildMoved(d, e, c, k, p, y, q, i);
    var (r, j) := MovedFrom(e, c, k, p, q, i);
    assert r == q && HasDir(d, q, x);
    assert Live(d, q, j) && Live(d, c, k) && !(q == c && j == k);
  }

  lemma RootNotUnder(d: Table, t: Cluster)
    requires TreeLike(d) && t != 0
    ensures !Above(d, t, 0)
  {
    if Above(d, t, 0) {
      var ch :| Chain(d, ch) && Last(ch) == 0 && t in ch;
      ChainUnique(d, ch, [0]);
      assert false;
    }
  }

  lemma AboveSelf(d: Table, t: Cluster)
    requires Reach(d, t)
    ensures Above(d, t, t)
  {
    var ch :| Chain(d, ch) && Last(ch) == t;
    assert t in ch;
  }

  lemma SubtreeLost(d: Table, e: Table, c: Cluster, k: nat, p: Cluster, y: Entry)
    requires Structure(d) && Moves(d, e, c, k, p, y)
    requires y.IsDir() && Above(d, y.cluster, p)
    ensures Reach(d, y.cluster) && !Reach(e, y.cluster) && !Reach(e, p)
  {
    var t := y.cluster;
    StructureIsTreeLike(d);
    ChildReached(d, c, k);
    AboveSelf(d, t);
    assert t != 0 by { assert HasDir(d, c, t); }
    hide Reach;
    hide Above;
    hide HasDir;
    hide Moves;
    hide Structure;
    var s := iset x: Cluster | Reach(d, x) && !Above(d, t, x);
    RootReached(d);
    RootNotUnder(d, t);
    forall q: Cluster, x: Cluster | q in s && HasDir(e, q, x) ensures x in s {
      EdgeOutside(d, e, c, k, p, y, q, x);
      ReachStep(d, q, x);
      if Above(d, t, x) { AboveStep(d, t, q, x); }
    }
    ReachWithin(e, s);
  }

  /** A move loses directories exactly when it puts one inside itself. */
  lemma MoveLosesNothing(d: Table, e: Table, c: Cluster, k: nat, p: Cluster, y: Entry)
    requires Structure(d) && Moves(d, e, c, k, p, y)
    ensures (forall x: Cluster :: Reach(e, x) <==> Reach(d, x)) <==> !(y.IsDir() && Above(d, y.cluster, p))
  {
    MoveReach(d, e, c, k, p, y);
    if y.IsDir() && Above(d, y.cluster, p) {
      SubtreeLost(d, e, c, k, p, y);
    } else {
      NothingLost(d, e, c, k, p, y);
    }
  }

  lemma NamesOutside(d: Table, e: Table, c: Cluster, k: nat, p: Cluster, y: Entry)
    requires NamesOk(d) && Moves(d, e, c, k, p, y) && !Reach(e, p)
    ensures NamesOk(e)
  {
    hide Same;
    hide Format;
    MoveReach(d, e, c, k, p, y);
    forall q: Cluster | Reach(e, q) ensures Distinct(Entries(e, q)) {
      Reparented(d, y, p, q);
      EntriesMoved(d, e, c, k, p, y, q);
      DistinctAfter(Entries(d, q), Entries(Reparent(d, y, p), q), y, false, q == c, k);
      assert Entries(Reparent(d, y, p), q) + [] == Entries(Reparent(d, y, p), q);
    }
    forall q: Cluster, i: nat | Live(e, q, i)
      ensures Entries(e, q)[i].Printed() != "" && (Entries(e, q)[i].IsDir() ==> '/' !in Entries(e, q)[i].Printed())
    {
      LiveMoved(d, e, c, k, p, y, q, i);
    }
  }

  /** The names stay good exactly when the moved entry's is, or when it ends up out of reach. */
  lemma MoveNamesExactly(d: Table, e: Table, c: Cluster, k: nat, p: Cluster, y: Entry)
    requires Structure(d) && NamesOk(d) && Moves(d, e, c, k, p, y) && (y.IsDir() ==> '/' !in y.Printed())
    ensures NamesOk(e) <==>
            || (y.IsDir() && Above(d, y.cluster, p))
            || (y.Printed() != "" && FreeBut(Entries(d, p), Leaving(c, k, p), y.Printed()))
  {
    hide Same;
    hide Format;
    if y.IsDir() && Above(d, y.cluster, p) {
      SubtreeLost(d, e, c, k, p, y);
      NamesOutside(d, e, c, k, p, y);
    } else if y.Printed() != "" && FreeBut(Entries(d, p), Leaving(c, k, p), y.Printed()) {
      MoveNames(d, e, c, k, p, y);
    } else {
      NothingLost(d, e, c, k, p, y);
      assert DotsAt(d, p);
      NewChildLast(d, e, c, k, p, y);
      assert Live(e, p, |Entries(e, p)| - 1);
      if y.Printed() != "" { MoveClashes(d, e, c, k, p, y); }
    }
  }
}
