/**
Conservation: what a command leaves as it was. mv keeps the stock of entries, rm
undoes touch, cp copies one content and leaves the others alone.
*/
module Stock {
  import opened CStrings
  import opened Names
  import opened Paths
  import opened Disk
  import opened Tree
  import opened Shrink
  import opened Grow
  import opened Relocate
  import opened Navigate
  import opened Deleting
  import opened Creating
  import opened Moving

  // ---- the stock of entries ----

  /** What an entry is apart from its name and time stamps. */
  datatype Item = Item(attributes: bv8, size: nat, cluster: Cluster)

  function ItemOf(e: Entry): Item {
    Item(e.attributes, e.size, e.cluster)
  }

  /** The entries of a directory after its two dot entries. */
  function Children(d: Table, c: Cluster): seq<Entry> {
    if |Entries(d, c)| >= 2 then Entries(d, c)[2..] else []
  }

  function Copies(es: seq<Entry>, x: Item): nat {
    if es == [] then 0
    else Copies(es[..|es| - 1], x) + if ItemOf(es[|es| - 1]) == x then 1 else 0
  }

  /** The sum of f over the clusters below n. */
  function Sum(f: Cluster -> nat, n: nat): nat
    requires n <= MAX_CLUSTERS
  {
    if n == 0 then 0 else Sum(f, n - 1) + f(n - 1)
  }

  function CopiesIn(d: Table, x: Item): Cluster -> nat {
    (q: Cluster) => Copies(Children(d, q), x)
  }

  function Sizes(d: Table): Cluster -> nat {
    (q: Cluster) => |Entries(d, q)|
  }

  /** How often x occurs among the non-dot entries of all directories. */
  function Stock(d: Table, x: Item): nat {
    Sum(CopiesIn(d, x), MAX_CLUSTERS)
  }

  /** How many entries the table has in all. */
  function EntryCount(d: Table): nat {
    Sum(Sizes(d), MAX_CLUSTERS)
  }

  function When(b: bool): nat {
    if b then 1 else 0
  }

  lemma {:induction false} SumShift(f: Cluster -> nat, g: Cluster -> nat, c: int, p: int, n: nat)
    requires n <= MAX_CLUSTERS
    requires forall q: Cluster :: f(q) + When(q == c) == g(q) + When(q == p)
    ensures Sum(f, n) + When(0 <= c < n) == Sum(g, n) + When(0 <= p < n)
  {
    if n > 0 {
      var q: Cluster := n - 1;
      SumShift(f, g, c, p, n - 1);
      assert f(q) + When(q == c) == g(q) + When(q == p);
    }
  }

  lemma {:induction false} CopiesSplit(es: seq<Entry>, rs: seq<Entry>, x: Item)
    ensures Copies(es + rs, x) == Copies(es, x) + Copies(rs, x)
    decreases |rs|
  {
    if rs == [] {
      assert es + rs == es;
    } else {
      var n := |rs| - 1;
      assert (es + rs)[..|es| + n] == es + rs[..n];
      CopiesSplit(es, rs[..n], x);
    }
  }

  lemma CopiesOne(e: Entry, x: Item)
    ensures Copies([e], x) == When(ItemOf(e) == x)
  {
    assert [e][..0] == [];
  }

  lemma CopiesWithout(es: seq<Entry>, k: nat, x: Item)
    requires k < |es|
    ensures Copies(Without(es, k), x) + When(ItemOf(es[k]) == x) == Copies(es, x)
  {
    CopiesSplit(es[..k], es[k + 1..], x);
    CopiesSplit(es[..k], [es[k]] + es[k + 1..], x);
    CopiesSplit([es[k]], es[k + 1..], x);
    CopiesOne(es[k], x);
    assert es == es[..k] + ([es[k]] + es[k + 1..]);
  }

  lemma PastDots(es: seq<Entry>, k: nat)
    requires |es| >= 2 && 2 <= k
    ensures k < |es| ==> Without(es, k)[2..] == Without(es[2..], k - 2)
  {
  }

  /** The children of a slot after a move, from those before. */
  lemma ChildrenMoved(d: Table, e: Table, c: Cluster, k: nat, p: Cluster, y: Entry, q: Cluster)
    requires Moves(d, e, c, k, p, y) && (q == p ==> |Entries(d, q)| >= 2)
    ensures var all := Children(d, q) + if q == p then [y] else [];
            if q == c then k - 2 < |all| && Children(e, q) == Without(all, k - 2) && k - 2 < |Children(d, q)|
            else Children(e, q) == all
  {
    Reparented(d, y, p, q);
    EntriesMoved(d, e, c, k, p, y, q);
    var rs := Entries(Reparent(d, y, p), q);
    assert k >= 2;
    hide Moves;
    hide Reparent;
    if |rs| >= 2 {
      assert rs[2..] == Children(d, q);
      var all := rs + if q == p then [y] else [];
      assert all[2..] == Children(d, q) + if q == p then [y] else [];
      PastDots(all, k);
    }
  }

  lemma MoveCopies(d: Table, e: Table, c: Cluster, k: nat, p: Cluster, y: Entry, q: Cluster, x: Item)
    requires Moves(d, e, c, k, p, y) && |Entries(d, p)| >= 2
    ensures Copies(Children(e, q), x) + When(q == c && ItemOf(y) == x) ==
            Copies(Children(d, q), x) + When(q == p && ItemOf(y) == x)
  {
    ChildrenMoved(d, e, c, k, p, y, q);
    var all := Children(d, q) + if q == p then [y] else [];
    assert Copies(all, x) == Copies(Children(d, q), x) + When(q == p && ItemOf(y) == x) by {
      if q == p {
        CopiesSplit(Children(d, q), [y], x);
        CopiesOne(y, x);
      } else {
        assert all == Children(d, q);
      }
    }
    if q == c { CopiesWithout(all, k - 2, x); }
  }

  lemma MoveStock(d: Table, e: Table, c: Cluster, k: nat, p: Cluster, y: Entry, x: Item)
    requires Moves(d, e, c, k, p, y) && |Entries(d, p)| >= 2
    ensures Stock(e, x) == Stock(d, x)
  {
    var from, to := if ItemOf(y) == x then c as int else -1, if ItemOf(y) == x then p as int else -1;
    forall q: Cluster ensures CopiesIn(e, x)(q) + When(q == from) == CopiesIn(d, x)(q) + When(q == to) {
      MoveCopies(d, e, c, k, p, y, q, x);
    }
    SumShift(CopiesIn(e, x), CopiesIn(d, x), from, to, MAX_CLUSTERS);
  }

  lemma SameStock(d: Table, e: Table, x: Item)
    requires forall q: Cluster :: Children(e, q) == Children(d, q)
    ensures Stock(e, x) == Stock(d, x)
  {
    SumShift(CopiesIn(e, x), CopiesIn(d, x), -1, -1, MAX_CLUSTERS);
  }

  lemma ReparentStock(d: Table, y: Entry, p: Cluster, x: Item)
    ensures Stock(Reparent(d, y, p), x) == Stock(d, x)
  {
    var r := Reparent(d, y, p);
    forall q: Cluster ensures Children(r, q) == Children(d, q) {
      Reparented(d, y, p, q);
    }
    SameStock(d, r, x);
  }

  lemma AppendStock(d: Table, p: Cluster, y: Entry, x: Item)
    requires |Entries(d, p)| >= 2
    ensures Stock(Append(d, p, y), x) == Stock(d, x) + When(ItemOf(y) == x)
  {
    var m, to := Append(d, p, y), if ItemOf(y) == x then p as int else -1;
    forall q: Cluster ensures CopiesIn(m, x)(q) + When(q == -1) == CopiesIn(d, x)(q) + When(q == to) {
      if q == p {
        assert Children(m, q) == Children(d, q) + [y];
        CopiesSplit(Children(d, q), [y], x);
        CopiesOne(y, x);
      } else {
        assert Children(m, q) == Children(d, q);
      }
    }
    SumShift(CopiesIn(m, x), CopiesIn(d, x), -1, to, MAX_CLUSTERS);
  }

  // ---- mv keeps the stock ----

  lemma AppendCount(d: Table, y: Entry, p: Cluster)
    ensures EntryCount(Append(Reparent(d, y, p), p, y)) == EntryCount(d) + 1
  {
    var e := Append(Reparent(d, y, p), p, y);
    forall q: Cluster ensures Sizes(e)(q) + When(q == -1) == Sizes(d)(q) + When(q == p) {
      Reparented(d, y, p, q);
    }
    SumShift(Sizes(e), Sizes(d), -1, p, MAX_CLUSTERS);
  }

  lemma RemoveCount(d: Table, c: Cluster, i: nat)
    requires i < |Entries(d, c)|
    ensures EntryCount(Remove(d, c, i)) + 1 == EntryCount(d)
  {
    var e := Remove(d, c, i);
    forall q: Cluster ensures Sizes(e)(q) + When(q == c) == Sizes(d)(q) + When(q == -1) {
    }
    SumShift(Sizes(e), Sizes(d), c, -1, MAX_CLUSTERS);
  }

  /** In any state the number of entries grows by one exactly when the second lookup finds nothing after the append. */
  lemma MvCounts(s: FS, src: cstring, dst: cstring)
    requires MoveCreates(s, src, dst)
    ensures var es := Entries(Appended(s, src, dst), Resolve(s, src).dir);
            EntryCount(MoveFile(s, src, dst).0.disk) == EntryCount(s.disk) + When(Find(es, FileName(src)) == |es|)
  {
    var m, from := Appended(s, src, dst), Resolve(s, src).dir;
    var i := Find(Entries(m, from), FileName(src));
    MoveUnfolds(s, src, dst);
    AppendCount(s.disk, Arrived(s, src, dst), Resolve(s, ParentPath(dst)).dir);
    hide Find;
    hide MoveFile;
    hide EntryCount;
    hide Remove;
    if i < |Entries(m, from)| { RemoveCount(m, from, i); }
  }

  /**
  In a well-formed one that is exactly when the source text ends in a slash, except
  when the entry is added beside itself under a name that prints as nothing.
  */
  lemma MvDoubles(s: FS, src: cstring, dst: cstring)
    requires Inv(s) && MoveCreates(s, src, dst)
    ensures var grows := FileName(src) == ""
                         && !(Resolve(s, src).dir == Resolve(s, ParentPath(dst)).dir && Reprint(FileName(dst)) == "");
            EntryCount(MoveFile(s, src, dst).0.disk) == EntryCount(s.disk) + When(grows)
  {
    var from, to, y := Resolve(s, src), Resolve(s, ParentPath(dst)).dir, Arrived(s, src, dst);
    MvCounts(s, src, dst);
    MoveEnds(s, src, dst);
    ArrivedPrints(s, src, dst);
    NoEmptyName(s, from.dir);
    hide Inv;
    hide Find;
    hide Format;
    hide Same;
    hide Resolve;
    hide Components;
    hide Reparent;
    hide MoveFile;
    hide Arrived;
    hide Append;
    hide EntryCount;
    if FileName(src) != "" {
      LookedUpAgain(s.disk, from.dir, to, y, FileName(src));
    } else {
      EmptyLookup(s.disk, from.dir, to, y);
    }
  }

  lemma ChildStock(s: FS, src: cstring, dst: cstring, x: Item)
    requires Inv(s) && MoveCreates(s, src, dst) && FileName(src) != "" && !DotName(FileName(src))
    ensures Stock(MoveFile(s, src, dst).0.disk, x) == Stock(s.disk, x)
  {
    hide Inv;
    hide Find;
    hide Same;
    hide Format;
    hide Components;
    hide MoveFile;
    hide Moves;
    hide Stock;
    var from, to, y := Resolve(s, src), Resolve(s, ParentPath(dst)).dir, Arrived(s, src, dst);
    MoveEnds(s, src, dst);
    MoveTable(s, src, dst);
    DotsThere(s, to);
    hide *;
    MoveStock(s.disk, MoveFile(s, src, dst).0.disk, from.dir, from.index, to, y, x);
  }

  lemma SlashStock(s: FS, src: cstring, dst: cstring, x: Item)
    requires Inv(s) && MoveCreates(s, src, dst) && FileName(src) == ""
    ensures Stock(MoveFile(s, src, dst).0.disk, x) ==
            Stock(s.disk, x) + When(Doubles(s, src, dst) && ItemOf(Source(s, src)) == x)
  {
    var to, y := Resolve(s, ParentPath(dst)).dir, Arrived(s, src, dst);
    MoveEnds(s, src, dst);
    MvTable(s, src, dst);
    ArrivedPrints(s, src, dst);
    DotsThere(s, to);
    Reparented(s.disk, y, to, to);
    hide Inv;
    hide Find;
    hide Format;
    hide Resolve;
    hide Reparent;
    hide MoveFile;
    hide Arrived;
    hide Append;
    hide Stock;
    ReparentStock(s.disk, y, to, x);
    if Doubles(s, src, dst) { AppendStock(Reparent(s.disk, y, to), to, y, x); }
  }

  /**
  A failed mv changes nothing. One that succeeds keeps all contents, and unless the
  source text ends in a dot name it keeps the stock of entries but for the one it doubles.
  */
  lemma MvConserves(s: FS, src: cstring, dst: cstring)
    requires Inv(s)
    ensures !MoveFile(s, src, dst).1 ==> MoveFile(s, src, dst).0 == s
    ensures MoveFile(s, src, dst).1 <==> MoveCreates(s, src, dst)
    ensures MoveFile(s, src, dst).0.content == s.content
    ensures MoveCreates(s, src, dst) && !DotName(FileName(src)) ==>
              forall x :: Stock(MoveFile(s, src, dst).0.disk, x) ==
                          Stock(s.disk, x) + When(Doubles(s, src, dst) && ItemOf(Source(s, src)) == x)
  {
    hide Find;
    hide Resolve;
    hide Stock;
    if MoveCreates(s, src, dst) && !DotName(FileName(src)) {
      forall x ensures Stock(MoveFile(s, src, dst).0.disk, x) ==
                       Stock(s.disk, x) + When(Doubles(s, src, dst) && ItemOf(Source(s, src)) == x) {
        if FileName(src) == "" { SlashStock(s, src, dst, x); } else { ChildStock(s, src, dst, x); }
      }
    }
  }

  // ---- rm undoes touch ----

  lemma TouchCreated(s: FS, name: cstring)
    requires TouchCreates(s, name)
    ensures var c := FreeCluster(s.disk); var d := Append(s.disk, s.cwd, NewEntry(name, 0, 0, c));
            Touch(s, name) == (s.(disk := d, content := s.content[c := ""]), true)
  {
  }

  /** Deleting the entry just appended takes it away again. */
  lemma DropAppended(s: FS, t: FS, x: Entry)
    requires s.disk[s.cwd].Dir? && s.disk[x.cluster].Empty?
    requires t.cwd == s.cwd && t.disk == Append(s.disk, s.cwd, x)
    ensures |t.Here()| == |s.Here()| + 1 && t.Here()[|s.Here()|] == x && DropFile(t, |s.Here()|).disk == s.disk
  {
    assert Without(s.Here() + [x], |s.Here()|) == s.Here();
  }

  lemma DeleteFound(t: FS, name: cstring, i: nat)
    requires RmSafe(t, name) && i < |t.Here()| && Find(t.Here(), name) == i && !t.Here()[i].IsDir()
    ensures DeleteFile(t, name) == (DropFile(t, i), true)
    ensures DropFile(t, i).cwd == t.cwd && DropFile(t, i).path == t.path
    ensures forall c: Cluster :: c != t.Here()[i].cluster ==> DropFile(t, i).content[c] == t.content[c]
  {
  }

  /** Touch of a new name that fits, then rm of it: the cluster table is exactly as before. */
  lemma TouchThenRm(s: FS, name: cstring)
    requires s.disk[s.cwd].Dir? && TouchCreates(s, name) && Fits(name)
    ensures RmSafe(Touch(s, name).0, name)
    ensures var (t, ok) := DeleteFile(Touch(s, name).0, name);
            ok && t.disk == s.disk && t.cwd == s.cwd && t.path == s.path
            && forall c: Cluster :: c != FreeCluster(s.disk) ==> t.content[c] == s.content[c]
  {
    var t, c := Touch(s, name).0, FreeCluster(s.disk);
    var x := NewEntry(name, 0, 0, c);
    TouchCreated(s, name);
    NewEntryPrints(name, 0, 0, c);
    DropAppended(s, t, x);
    assert t.Here() == s.Here() + [x];
    FindUnique(t.Here(), name, |s.Here()|);
    DeleteFound(t, name, |s.Here()|);
  }

  // ---- contents ----

  /** Every live file has the content it had. */
  ghost predicate ContentKept(s: FS, t: FS) {
    forall p: Cluster, i: nat :: Live(s.disk, p, i) && !Entries(s.disk, p)[i].IsDir() ==>
      var c := Entries(s.disk, p)[i].cluster;
      t.content[c] == s.content[c]
  }

  /** A live file that already has the slot the allocator returns has this very content. */
  ghost predicate SlotHolds(s: FS, text: cstring) {
    forall p: Cluster, i: nat :: Live(s.disk, p, i) && !Entries(s.disk, p)[i].IsDir() ==>
      var c := Entries(s.disk, p)[i].cluster;
      c == FreeCluster(s.disk) ==> s.content[c] == text
  }

  /**
  A creating touch leaves the other files' contents alone exactly when none of them
  has the allocated slot with text in it.
  */
  lemma TouchContents(s: FS, name: cstring)
    requires TouchCreates(s, name)
    ensures ContentKept(s, Touch(s, name).0) <==> SlotHolds(s, "")
  {
    TouchCreated(s, name);
    hide Live;
    hide Touch;
  }

  lemma CopyCreated(s: FS, src: cstring, dst: cstring)
    requires CopyCreates(s, src, dst)
    ensures var t := CopyFile(s, src, dst).0;
            t.content == s.content[FreeCluster(s.disk) := s.content[Source(s, src).cluster]]
  {
  }

  /**
  cp gives the new entry the source's content. The other files keep theirs
  exactly when none of them already had the allocated slot with another content.
  */
  lemma CopyContents(s: FS, src: cstring, dst: cstring)
    requires Inv(s) && CopyCreates(s, src, dst)
    ensures var t, to := CopyFile(s, src, dst).0, Resolve(s, ParentPath(dst)).dir;
            var text := s.content[Source(s, src).cluster];
            && Entries(t.disk, to) == Entries(s.disk, to) + [Entries(t.disk, to)[|Entries(s.disk, to)|]]
            && t.content[Entries(t.disk, to)[|Entries(s.disk, to)|].cluster] == text
            && (ContentKept(s, t) <==> SlotHolds(s, text))
  {
    CopyTable(s, src, dst);
    CopyCreated(s, src, dst);
  }
}
