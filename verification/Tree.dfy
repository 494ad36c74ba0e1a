/**
The directory tree in the cluster table: what "reachable from the root" means,
the structure every command is meant to keep, and its immediate consequences.
*/
module Tree {
  import opened CStrings
  import opened Names
  import opened Paths
  import opened Disk

  /** A child entry of directory p: anything after its two dot entries. */
  predicate ChildAt(d: Table, p: Cluster, i: nat) {
    2 <= i < |Entries(d, p)|
  }

  /** Directory p has a subdirectory entry that names cluster c. */
  ghost predicate HasDir(d: Table, p: Cluster, c: Cluster) {
    exists i: nat :: ChildAt(d, p, i) && Entries(d, p)[i].IsDir() && Entries(d, p)[i].cluster == c
  }

  /** Clusters from the root down, each naming the next. */
  ghost predicate Chain(d: Table, ch: seq<Cluster>) {
    && |ch| > 0 && ch[0] == 0
    && forall k :: 0 <= k < |ch| - 1 ==> HasDir(d, ch[k], ch[k + 1])
  }

  function Last(ch: seq<Cluster>): Cluster
    requires |ch| > 0
  {
    ch[|ch| - 1]
  }

  ghost predicate Reach(d: Table, c: Cluster) {
    exists ch :: Chain(d, ch) && Last(ch) == c
  }

  /** a is c, or lies above c in the tree. */
  ghost predicate Above(d: Table, a: Cluster, c: Cluster) {
    exists ch :: Chain(d, ch) && Last(ch) == c && a in ch
  }

  /** A live child entry: one in a directory that can be reached. */
  ghost predicate Live(d: Table, p: Cluster, i: nat) {
    Reach(d, p) && ChildAt(d, p, i)
  }

  ghost predicate DirNamed(d: Table, c: Cluster) {
    exists p: Cluster :: Reach(d, p) && HasDir(d, p, c)
  }

  ghost predicate Named(d: Table, c: Cluster) {
    exists p: Cluster, i: nat :: Live(d, p, i) && Entries(d, p)[i].cluster == c
  }

  // ---- the structure ----

  predicate DotsAt(d: Table, c: Cluster) {
    var es := Entries(d, c);
    && |es| >= 2
    && es[0].IsDir() && es[0].Printed() == "." && es[0].cluster == c
    && es[1].IsDir() && es[1].Printed() == ".."
    && (c == 0 ==> es[1].cluster == 0)
  }

  /** Each reachable directory starts with "." naming itself and "..". */
  ghost predicate DotsOk(d: Table) {
    forall c: Cluster {:trigger Reach(d, c)} {:trigger DotsAt(d, c)} :: Reach(d, c) && d[c].Dir? ==> DotsAt(d, c)
  }

  /** No live subdirectory entry names the root, and ".." of what it names leads back. */
  ghost predicate ParentsOk(d: Table) {
    forall p: Cluster, i: nat {:trigger Live(d, p, i)} :: Live(d, p, i) && Entries(d, p)[i].IsDir() ==>
      var t := Entries(d, p)[i].cluster;
      t != 0 && (d[t].Dir? ==> |Entries(d, t)| >= 2 && Entries(d, t)[1].cluster == p)
  }

  /** A cluster that a live subdirectory entry names is named by no other live entry, file or directory. */
  ghost predicate NamedOnce(d: Table) {
    forall p: Cluster, i: nat, q: Cluster, j: nat {:trigger Live(d, p, i), Live(d, q, j)} ::
      Live(d, p, i) && Live(d, q, j) ==>
      Entries(d, p)[i].IsDir() && Entries(d, p)[i].cluster == Entries(d, q)[j].cluster ==> p == q && i == j
  }

  /** No live file names a directory. */
  ghost predicate FilesApart(d: Table) {
    forall p: Cluster, i: nat {:trigger Live(d, p, i)} ::
      Live(d, p, i) && !Entries(d, p)[i].IsDir() ==> d[Entries(d, p)[i].cluster].Empty?
  }

  ghost predicate Structure(d: Table) {
    d[0].Dir? && DotsOk(d) && ParentsOk(d) && NamedOnce(d) && FilesApart(d)
  }

  predicate Distinct(es: seq<Entry>) {
    forall i, j :: 0 <= i < j < |es| ==> !Same(es[i].Printed(), es[j].Printed())
  }

  /** Printed names are unique in a directory and not empty; those of subdirectories have no slash. */
  ghost predicate NamesOk(d: Table) {
    && (forall c: Cluster {:trigger Reach(d, c)} {:trigger Distinct(Entries(d, c))} ::
          Reach(d, c) ==> Distinct(Entries(d, c)))
    && (forall p: Cluster, i: nat {:trigger Live(d, p, i)} :: Live(d, p, i) ==>
          var e := Entries(d, p)[i];
          e.Printed() != "" && (e.IsDir() ==> '/' !in e.Printed()))
  }

  // ---- reachability ----

  lemma {:induction false} ChainWithin(d: Table, s: iset<Cluster>, ch: seq<Cluster>)
    requires 0 in s && forall p: Cluster, c: Cluster :: p in s && HasDir(d, p, c) ==> c in s
    requires Chain(d, ch)
    ensures Last(ch) in s
  {
    if |ch| > 1 {
      var init := ch[..|ch| - 1];
      ChainWithin(d, s, init);
      assert HasDir(d, ch[|ch| - 2], ch[|ch| - 1]);
    }
  }

  /** A set with the root in it and closed under naming has everything reachable in it. */
  lemma ReachWithin(d: Table, s: iset<Cluster>)
    requires 0 in s && forall p: Cluster, c: Cluster :: p in s && HasDir(d, p, c) ==> c in s
    ensures forall c: Cluster :: Reach(d, c) ==> c in s
  {
    forall c: Cluster | Reach(d, c) ensures c in s {
      var ch :| Chain(d, ch) && Last(ch) == c;
      ChainWithin(d, s, ch);
    }
  }

  lemma RootReached(d: Table)
    ensures Reach(d, 0)
  {
    assert Chain(d, [0]) && Last([0]) == 0;
  }

  lemma ReachStep(d: Table, p: Cluster, c: Cluster)
    requires Reach(d, p) && HasDir(d, p, c)
    ensures Reach(d, c)
  {
    var ch :| Chain(d, ch) && Last(ch) == p;
    assert Chain(d, ch + [c]) && Last(ch + [c]) == c;
  }

  lemma LinkReached(d: Table, ch: seq<Cluster>, k: nat)
    requires Chain(d, ch) && k < |ch|
    ensures Reach(d, ch[k])
  {
    assert Chain(d, ch[..k + 1]) && Last(ch[..k + 1]) == ch[k];
  }

  // ---- consequences of the structure ----

  /** No two directories name the same one, and none names the root. */
  ghost predicate TreeLike(d: Table) {
    forall p: Cluster, q: Cluster, c: Cluster ::
      Reach(d, p) && Reach(d, q) && HasDir(d, p, c) && HasDir(d, q, c) ==> p == q && c != 0
  }

  lemma StructureIsTreeLike(d: Table)
    requires Structure(d)
    ensures TreeLike(d)
  {
    forall p: Cluster, q: Cluster, c: Cluster |
      Reach(d, p) && Reach(d, q) && HasDir(d, p, c) && HasDir(d, q, c)
      ensures p == q && c != 0
    {
      var i: nat :| ChildAt(d, p, i) && Entries(d, p)[i].IsDir() && Entries(d, p)[i].cluster == c;
      var j: nat :| ChildAt(d, q, j) && Entries(d, q)[j].IsDir() && Entries(d, q)[j].cluster == c;
      assert Live(d, p, i) && Live(d, q, j);
    }
  }

  lemma ChainLink(d: Table, ch: seq<Cluster>, k: nat)
    requires Chain(d, ch) && 0 < k < |ch|
    ensures Reach(d, ch[k - 1]) && HasDir(d, ch[k - 1], ch[k])
  {
    LinkReached(d, ch, k - 1);
    assert HasDir(d, ch[k - 1], ch[k - 1 + 1]);
  }

  /** The directories from the root down are all different: the tree has no cycle. */
  lemma {:induction false} ChainDistinct(d: Table, ch: seq<Cluster>, i: nat, j: nat)
    requires TreeLike(d) && Chain(d, ch) && i < j < |ch|
    ensures ch[i] != ch[j]
    decreases i
  {
    ChainLink(d, ch, j);
    if i > 0 {
      ChainLink(d, ch, i);
      ChainDistinct(d, ch, i - 1, j - 1);
    }
  }

  lemma ChainPrefix(d: Table, ch: seq<Cluster>)
    requires Chain(d, ch) && |ch| > 1
    ensures Chain(d, ch[..|ch| - 1])
  {
    hide HasDir;
    var init := ch[..|ch| - 1];
    assert forall k :: 0 <= k < |init| ==> init[k] == ch[k];
  }

  /** So there is only one way down to each of them. */
  lemma {:induction false} ChainUnique(d: Table, ch: seq<Cluster>, other: seq<Cluster>)
    requires TreeLike(d) && Chain(d, ch) && Chain(d, other) && Last(ch) == Last(other)
    ensures ch == other
    decreases |ch|
  {
    hide HasDir;
    hide Reach;
    if |ch| == 1 {
      if |other| > 1 { ChainDistinct(d, other, 0, |other| - 1); }
    } else if |other| == 1 {
      ChainDistinct(d, ch, 0, |ch| - 1);
    } else {
      ChainLink(d, ch, |ch| - 1);
      ChainLink(d, other, |other| - 1);
      ChainPrefix(d, ch);
      ChainPrefix(d, other);
      hide Chain;
      ChainUnique(d, ch[..|ch| - 1], other[..|other| - 1]);
      assert ch == ch[..|ch| - 1] + [Last(ch)] && other == other[..|other| - 1] + [Last(other)];
    }
  }

  /** A directory does not name itself. */
  lemma NotItsOwnChild(d: Table, c: Cluster)
    requires Structure(d) && Reach(d, c)
    ensures !HasDir(d, c, c)
  {
    if HasDir(d, c, c) {
      StructureIsTreeLike(d);
      var ch :| Chain(d, ch) && Last(ch) == c;
      assert Chain(d, ch + [c]);
      ChainDistinct(d, ch + [c], |ch| - 1, |ch|);
    }
  }

  function Below(n: nat): (s: set<nat>)
    ensures |s| == n && forall c :: c in s <==> 0 <= c < n
  {
    if n == 0 then {} else Below(n - 1) + {n - 1}
  }

  /** A sequence without repetitions is no longer than a set that has all its elements. */
  lemma {:induction false} Pigeonhole(ch: seq<Cluster>, s: set<nat>)
    requires forall i, j :: 0 <= i < j < |ch| ==> ch[i] != ch[j]
    requires forall k :: 0 <= k < |ch| ==> ch[k] in s
    ensures |ch| <= |s|
  {
    if ch != [] {
      Pigeonhole(ch[..|ch| - 1], s - {ch[|ch| - 1] as nat});
    }
  }

  lemma ChainShort(d: Table, ch: seq<Cluster>)
    requires TreeLike(d) && Chain(d, ch)
    ensures |ch| <= MAX_CLUSTERS
  {
    forall i, j | 0 <= i < j < |ch| ensures ch[i] != ch[j] {
      ChainDistinct(d, ch, i, j);
    }
    Pigeonhole(ch, Below(MAX_CLUSTERS));
  }

  // ---- the current directory and its path ----

  /** Looking name up in p leads to subdirectory c. */
  predicate Into(d: Table, p: Cluster, name: cstring, c: Cluster) {
    var i := Find(Entries(d, p), name);
    ChildAt(d, p, i) && Entries(d, p)[i].IsDir() && Entries(d, p)[i].cluster == c
  }

  /** The clusters met when the names cs are looked up one after the other. */
  predicate Steps(d: Table, cs: seq<cstring>, ch: seq<Cluster>) {
    && |ch| == |cs| + 1
    && forall k :: 0 <= k < |cs| ==> Into(d, ch[k], cs[k], ch[k + 1])
  }

  predicate Trail(d: Table, cs: seq<cstring>, ch: seq<Cluster>) {
    Steps(d, cs, ch) && ch[0] == 0
  }

  const PATH_BOUND := 195

  ghost predicate TrailTo(s: FS, cs: seq<cstring>, ch: seq<Cluster>) {
    Spells(s.path, cs) && Trail(s.disk, cs, ch) && Last(ch) == s.cwd
  }

  /** The current path spells a way from the root to the current directory. */
  ghost predicate Located(s: FS) {
    |s.path| <= PATH_BOUND && exists cs, ch :: TrailTo(s, cs, ch)
  }

  lemma LocatedBy(s: FS, cs: seq<cstring>, ch: seq<Cluster>)
    requires |s.path| <= PATH_BOUND && TrailTo(s, cs, ch)
    ensures Located(s)
  {
  }

  /** What the commands keep. */
  ghost predicate Inv(s: FS) {
    Structure(s.disk) && NamesOk(s.disk) && Located(s)
  }

  lemma TrailChain(d: Table, cs: seq<cstring>, ch: seq<Cluster>)
    requires Trail(d, cs, ch)
    ensures Chain(d, ch) && Reach(d, Last(ch))
  {
    forall k | 0 <= k < |ch| - 1 ensures HasDir(d, ch[k], ch[k + 1]) {
      assert Into(d, ch[k], cs[k], ch[k + 1]);
    }
  }

  /** The directory reached by entering the names cs one after the other, or -1. */
  function DirAt(d: Table, from: Cluster, cs: seq<cstring>): (c: int)
    ensures -1 <= c < MAX_CLUSTERS
    decreases |cs|
  {
    if cs == [] then from
    else
      var i := Find(Entries(d, from), cs[0]);
      if i < |Entries(d, from)| && Entries(d, from)[i].IsDir() then DirAt(d, Entries(d, from)[i].cluster, cs[1..])
      else -1
  }

  lemma {:induction false} StepsLead(d: Table, cs: seq<cstring>, ch: seq<Cluster>)
    requires Steps(d, cs, ch)
    ensures DirAt(d, ch[0], cs) == Last(ch)
    decreases |cs|
  {
    if cs != [] {
      assert Into(d, ch[0], cs[0], ch[0 + 1]);
      forall k | 0 <= k < |cs| - 1 ensures Into(d, ch[1..][k], cs[1..][k], ch[1..][k + 1]) {
        assert Into(d, ch[k + 1], cs[k + 1], ch[k + 1 + 1]);
      }
      StepsLead(d, cs[1..], ch[1..]);
    }
  }

  lemma {:induction false} DirSnoc(d: Table, from: Cluster, cs: seq<cstring>)
    requires cs != []
    ensures var c := DirAt(d, from, cs[..|cs| - 1]);
            DirAt(d, from, cs) == if c == -1 then -1 else DirAt(d, c, [cs[|cs| - 1]])
    decreases |cs|
  {
    hide Find;
    var init := cs[..|cs| - 1];
    if |cs| == 1 {
      assert init == [] && cs == [cs[0]];
    } else {
      assert init[0] == cs[0] && init[1..] == cs[1..][..|cs| - 2] && cs[1..][|cs| - 2] == cs[|cs| - 1];
      var i := Find(Entries(d, from), cs[0]);
      if i < |Entries(d, from)| && Entries(d, from)[i].IsDir() {
        DirSnoc(d, Entries(d, from)[i].cluster, cs[1..]);
      }
    }
  }

  /** What looking name up in directory p gives; nothing when there is no such directory. */
  function Looked(d: Table, p: int, name: cstring): Resolution
    requires -1 <= p < MAX_CLUSTERS
  {
    if p != -1 && Find(Entries(d, p), name) < |Entries(d, p)| then At(p, Find(Entries(d, p), name)) else NotFound
  }

  /** The first name is looked up, and the rest from there if it leads to a directory. */
  lemma WalkStep(d: Table, from: Cluster, cs: seq<cstring>)
    requires |cs| > 1
    ensures var c := DirAt(d, from, [cs[0]]); Walk(d, from, cs) == if c == -1 then NotFound else Walk(d, c, cs[1..])
  {
    hide Find;
  }

  lemma DirStep(d: Table, from: Cluster, cs: seq<cstring>)
    requires |cs| > 1
    ensures var c := DirAt(d, from, [cs[0]]);
            DirAt(d, from, cs[..|cs| - 1]) == if c == -1 then -1 else DirAt(d, c, cs[1..][..|cs| - 2])
  {
    hide Find;
    var init := cs[..|cs| - 1];
    assert init[0] == cs[0] && init[1..] == cs[1..][..|cs| - 2];
  }

  lemma WalkOne(d: Table, from: Cluster, name: cstring)
    ensures Walk(d, from, [name]) == Looked(d, DirAt(d, from, []), name)
  {
  }

  /** The resolver's walk ends at the last name, looked up in the directory the others lead to. */
  lemma {:induction false} WalkMeans(d: Table, from: Cluster, cs: seq<cstring>)
    requires cs != []
    ensures Walk(d, from, cs) == Looked(d, DirAt(d, from, cs[..|cs| - 1]), cs[|cs| - 1])
    decreases |cs|
  {
    hide Walk;
    hide DirAt;
    hide Find;
    if |cs| == 1 {
      assert cs == [cs[0]] && cs[..0] == [];
      WalkOne(d, from, cs[0]);
    } else {
      WalkStep(d, from, cs);
      DirStep(d, from, cs);
      assert cs[1..][|cs| - 2] == cs[|cs| - 1];
      var c := DirAt(d, from, [cs[0]]);
      if c != -1 { WalkMeans(d, c, cs[1..]); }
    }
  }

  /**
  In a well-formed state entering the components of the current path one by one
  from the root ends in the current directory, and the path is short.
  */
  lemma PathAgrees(s: FS)
    requires Inv(s)
    ensures Absolute(s.path) && |s.path| <= PATH_BOUND
    ensures DirAt(s.disk, 0, Components(s.path)) == s.cwd
  {
    var cs, ch :| TrailTo(s, cs, ch);
    SpellsComponents(s.path, cs);
    StepsLead(s.disk, cs, ch);
  }
}
