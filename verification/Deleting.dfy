/**
The deleting commands keep a well-formed state, and a bulk delete is a filter.
*/
module Deleting {
  import opened CStrings
  import opened Names
  import opened Paths
  import opened Disk
  import opened Tree
  import opened Shrink
  import opened Grow
  import opened Relocate
  import opened Navigate

  lemma ShrinkFrozen(d: Table, e: Table, c: Cluster, k: nat)
    requires Shrinks(d, e, c, k) && Reach(d, c)
    requires forall x: Cluster :: x != c && e[x] != d[x] ==> HasDir(d, c, x)
    ensures Frozen(d, e)
  {
    ShrinkReach(d, e, c, k);
    forall x: Cluster | d[x].Dir? && !Reach(d, x) ensures e[x] == d[x] && !Reach(e, x) {
      if HasDir(d, c, x) { ReachStep(d, c, x); }
    }
  }

  lemma ShrinkKeeps(s: FS, t: FS, k: nat)
    requires Inv(s) && Shrinks(s.disk, t.disk, s.cwd, k) && t.cwd == s.cwd && t.path == s.path
    requires forall x: Cluster :: x != s.cwd && t.disk[x] != s.disk[x] ==> HasDir(s.disk, s.cwd, x)
    ensures Keeps(s, t)
  {
    CwdReached(s);
    StructureIsTreeLike(s.disk);
    ShrinkStructure(s.disk, t.disk, s.cwd, k);
    ShrinkNames(s.disk, t.disk, s.cwd, k);
    ShrinkLocated(s, t, k);
    ShrinkFrozen(s.disk, t.disk, s.cwd, k);
  }

  /** A file in the current directory names an unused slot, so deleting it only closes the gap. */
  lemma FileSlot(s: FS, i: nat)
    requires Inv(s) && i < |s.Here()| && !s.Here()[i].IsDir()
    ensures i >= 2 && s.disk[s.Here()[i].cluster].Empty? && s.Here()[i].cluster != s.cwd
    ensures DropFile(s, i).disk == Remove(s.disk, s.cwd, i)
  {
    CwdReached(s);
    assert DotsAt(s.disk, s.cwd);
    assert Live(s.disk, s.cwd, i);
  }

  lemma RootSafe(s: FS)
    requires Inv(s)
    ensures s.disk[0].Dir?
  {
  }

  lemma DropFileKeeps(s: FS, i: nat)
    requires Inv(s) && i < |s.Here()| && !s.Here()[i].IsDir()
    ensures s.Here()[i].cluster != s.cwd && Keeps(s, DropFile(s, i))
  {
    FileSlot(s, i);
    RootSafe(s);
    ShrinkKeeps(s, DropFile(s, i), i);
  }

  lemma FileApart(d: Table, p: Cluster, j: nat)
    requires Structure(d) && Reach(d, p) && j < |Entries(d, p)| && !Entries(d, p)[j].IsDir()
    ensures d[Entries(d, p)[j].cluster].Empty?
  {
    assert DotsAt(d, p);
    assert Live(d, p, j);
  }

  lemma FilesElsewhere(d: Table, p: Cluster, c: Cluster)
    requires Structure(d) && Reach(d, p) && d[c].Dir?
    ensures NoFileNames(d, p, c)
  {
    forall j | 0 <= j < |Entries(d, p)| && Entries(d, p)[j].cluster == c ensures Entries(d, p)[j].IsDir() {
      if !Entries(d, p)[j].IsDir() { FileApart(d, p, j); }
    }
  }

  /** The condition the deleting commands need is part of a well-formed state. */
  lemma InvCwdSafe(s: FS)
    requires Inv(s)
    ensures CwdSafe(s)
  {
    CwdReached(s);
    var d := s.disk;
    NotItsOwnChild(d, s.cwd);
    forall i | 0 <= i < |s.Here()| && s.Here()[i].cluster == s.cwd
      ensures s.Here()[i].IsDir() && (Same(s.Here()[i].Printed(), ".") || Same(s.Here()[i].Printed(), ".."))
    {
      if !s.Here()[i].IsDir() { FileSlot(s, i); }
      assert DotsAt(d, s.cwd);
      if i >= 2 {
        assert ChildAt(d, s.cwd, i);
      }
    }
    forall i | 0 <= i < |s.Here()| && s.Here()[i].IsDir() ensures NoFileNames(d, s.Here()[i].cluster, s.cwd) {
      EntryReach(d, s.cwd, i);
      FilesElsewhere(d, s.Here()[i].cluster, s.cwd);
    }
  }

  /** rm succeeds exactly when the first entry of that name is a file. */
  lemma RmSucceeds(s: FS, name: cstring)
    requires RmSafe(s, name)
    ensures DeleteFile(s, name).1 <==> HasName(s.Here(), name) && DirAt(s.disk, s.cwd, [name]) == -1
    ensures !DeleteFile(s, name).1 ==> DeleteFile(s, name).0 == s
  {
    hide Find;
    hide HasName;
    FindsName(s.Here(), name);
  }

  lemma RmKeeps(s: FS, name: cstring)
    requires Inv(s)
    ensures RmSafe(s, name) && Keeps(s, DeleteFile(s, name).0)
  {
    InvCwdSafe(s);
    var i := Find(s.Here(), name);
    if i < |s.Here()| && !s.Here()[i].IsDir() { DropFileKeeps(s, i); }
  }

  lemma FileNotRoot(s: FS, i: nat)
    requires Inv(s) && i < |s.Here()| && !s.Here()[i].IsDir()
    ensures s.Here()[i].cluster != 0
  {
    FileSlot(s, i);
    RootSafe(s);
  }

  /** A successful rm takes out that entry, empties its content, and changes no other directory and no other content. */
  lemma RmMeans(s: FS, name: cstring)
    requires Inv(s) && RmSafe(s, name) && DeleteFile(s, name).1
    ensures var t, i := DeleteFile(s, name).0, Find(s.Here(), name);
            && i < |s.Here()|
            && t.Here() == s.Here()[..i] + s.Here()[i + 1..] && t.cwd == s.cwd && t.path == s.path
            && (forall x: Cluster :: x != s.cwd ==> t.disk[x] == s.disk[x])
            && forall x: Cluster :: t.content[x] == if x == s.Here()[i].cluster then "" else s.content[x]
  {
    hide Find;
    hide Inv;
    var i := Find(s.Here(), name);
    FileSlot(s, i);
    FileNotRoot(s, i);
  }

  /** The files of a reachable directory name unused slots: releasing them leaves the table alone. */
  lemma ReleaseNothing(s: FS, es: seq<Entry>, from: nat)
    requires forall i :: from <= i < |es| && !es[i].IsDir() ==> s.disk[es[i].cluster].Empty?
    ensures ReleaseFiles(s, es, from).disk == s.disk
    decreases |es| - from
  {
    if from < |es| {
      var t := if es[from].IsDir() then s else Release(s, es[from].cluster);
      assert t.disk == s.disk;
      ReleaseNothing(t, es, from + 1);
    }
  }

  lemma LiveFilesSlots(d: Table, c: Cluster)
    requires FilesApart(d) && Reach(d, c)
    ensures forall j :: 2 <= j < |Entries(d, c)| && !Entries(d, c)[j].IsDir() ==> d[Entries(d, c)[j].cluster].Empty?
  {
    forall j | 2 <= j < |Entries(d, c)| && !Entries(d, c)[j].IsDir() ensures d[Entries(d, c)[j].cluster].Empty? {
      assert Live(d, c, j);
    }
  }

  /** Child directory i of the current one is gone and its slot is free; nothing else in the table has changed. */
  ghost predicate ChildRemoved(s: FS, t: FS, i: nat) {
    && ChildAt(s.disk, s.cwd, i) && s.Here()[i].IsDir() && t.cwd == s.cwd && t.path == s.path
    && var c := s.Here()[i].cluster;
       c != 0 && c != s.cwd && HasDir(s.disk, s.cwd, c) && t.disk == Remove(s.disk[c := Empty], s.cwd, i)
  }

  /** Forced or not, all that changes is that the child is taken out and its slot freed. */
  lemma RmDirTable(s: FS, name: cstring, force: bool)
    requires Inv(s) && CwdSafe(s) && DeleteDirectory(s, name, force).1
    ensures ChildRemoved(s, DeleteDirectory(s, name, force).0, Find(s.Here(), name))
  {
    var d, i := s.disk, Find(s.Here(), name);
    CwdReached(s);
    NotADot(d, s.cwd, name);
    var c := s.Here()[i].cluster;
    assert HasDir(d, s.cwd, c);
    ReachStep(d, s.cwd, c);
    NotItsOwnChild(d, s.cwd);
    LiveFilesSlots(d, c);
    assert c != 0;
    hide Inv;
    hide Reach;
    hide HasDir;
    hide Find;
    ReleaseNothing(s, Entries(d, c), 2);
    ReleaseKeepsCwd(s, Entries(d, c), 2);
  }

  /**
  In a well-formed state rm of a directory succeeds exactly when the name is no dot
  name, leads to a directory, and that is empty or force is given.
  */
  lemma RmDirSucceeds(s: FS, name: cstring, force: bool)
    requires Inv(s)
    ensures CwdSafe(s)
    ensures var c := DirAt(s.disk, s.cwd, [name]);
            DeleteDirectory(s, name, force).1 <==>
            !Same(name, ".") && !Same(name, "..") && c != -1 && (force || |Entries(s.disk, c)| <= 2)
    ensures !DeleteDirectory(s, name, force).1 ==> DeleteDirectory(s, name, force).0 == s
  {
    InvCwdSafe(s);
    hide Inv;
    hide Find;
    hide Same;
    hide CwdSafe;
    hide ReleaseFiles;
  }

  /** Some file from the third entry on names the cluster. */
  predicate FileInside(es: seq<Entry>, from: nat, x: Cluster) {
    x != 0 && exists i :: from <= i < |es| && !es[i].IsDir() && es[i].cluster == x
  }

  lemma {:induction false} ReleaseContents(s: FS, es: seq<Entry>, from: nat, x: Cluster)
    ensures ReleaseFiles(s, es, from).content[x] == if FileInside(es, from, x) then "" else s.content[x]
    decreases |es| - from
  {
    if from < |es| {
      ReleaseContents(if es[from].IsDir() then s else Release(s, es[from].cluster), es, from + 1, x);
    }
  }

  /** With it go the contents of exactly the files inside. */
  lemma RmDirContents(s: FS, name: cstring, force: bool, x: Cluster)
    requires Inv(s) && CwdSafe(s) && DeleteDirectory(s, name, force).1
    ensures var c := DirAt(s.disk, s.cwd, [name]);
            && c != -1
            && DeleteDirectory(s, name, force).0.content[x] ==
                 if FileInside(Entries(s.disk, c), 2, x) then "" else s.content[x]
  {
    var c := s.Here()[Find(s.Here(), name)].cluster;
    hide Inv;
    hide Find;
    hide Same;
    hide CwdSafe;
    hide ReleaseFiles;
    ReleaseContents(s, Entries(s.disk, c), 2, x);
  }

  lemma RmDirKeeps(s: FS, name: cstring, force: bool)
    requires Inv(s) && CwdSafe(s)
    ensures Keeps(s, DeleteDirectory(s, name, force).0)
  {
    hide DeleteDirectory;
    hide Inv;
    hide Find;
    var (t, ok) := DeleteDirectory(s, name, force);
    if ok {
      RmDirTable(s, name, force);
      RootSafe(s);
      ShrinkKeeps(s, t, Find(s.Here(), name));
    }
  }

  /** A file whose printed name ends in the given ending ignoring case, or any file. */
  predicate Goes(e: Entry, what: Selection) {
    && !e.IsDir()
    && match what
       case All => true
       case Ending(suffix) =>
         var n := e.Printed();
         && |suffix| <= |n|
         && forall k :: 0 <= k < |suffix| ==> UpperChar(n[|n| - |suffix| + k]) == UpperChar(suffix[k])
  }

  lemma TakesGoes(e: Entry, what: Selection)
    ensures what.Takes(e) <==> Goes(e, what)
  {
  }

  /** The entries that do not go, in their old order. */
  function Kept(es: seq<Entry>, what: Selection): seq<Entry> {
    if es == [] then []
    else Kept(es[..|es| - 1], what) + if Goes(es[|es| - 1], what) then [] else [es[|es| - 1]]
  }

  function Taken(es: seq<Entry>, what: Selection): nat {
    if es == [] then 0
    else Taken(es[..|es| - 1], what) + if Goes(es[|es| - 1], what) then 1 else 0
  }

  lemma KeptStep(es: seq<Entry>, what: Selection, n: nat)
    requires 0 < n <= |es|
    ensures Kept(es[..n], what) + es[n..] ==
            Kept(es[..n - 1], what) + if what.Takes(es[n - 1]) then es[n..] else es[n - 1..]
    ensures Taken(es[..n], what) == Taken(es[..n - 1], what) + if what.Takes(es[n - 1]) then 1 else 0
  {
    TakesGoes(es[n - 1], what);
    hide Goes;
    hide Selection.Takes;
    assert es[..n][..n - 1] == es[..n - 1];
    assert es[n - 1..] == [es[n - 1]] + es[n..];
  }

  lemma DropHere(s: FS, i: nat)
    requires i < |s.Here()| && s.Here()[i].cluster != s.cwd
    ensures var r := DropFile(s, i);
            r.Here()[..i] == s.Here()[..i] && r.Here()[i..] == s.Here()[i + 1..] && r.cwd == s.cwd && r.path == s.path
  {
    assert DropFile(s, i).Here() == Without(s.Here(), i);
  }

  /** The backward loop with its inner shifting is an order-preserving filter, and counts what it takes. */
  lemma {:induction false} DownIsFilter(s: FS, what: Selection, n: nat)
    requires DownSafe(s, what, n)
    ensures var (t, k) := DeleteDown(s, what, n);
            t.Here() == Kept(s.Here()[..n], what) + s.Here()[n..] && k == Taken(s.Here()[..n], what)
    ensures var (t, k) := DeleteDown(s, what, n); t.cwd == s.cwd && t.path == s.path
    decreases n
  {
    if n == 0 {
      assert s.Here()[..0] == [] && s.Here()[0..] == s.Here();
    } else {
      KeptStep(s.Here(), what, n);
      if what.Takes(s.Here()[n - 1]) {
        DropHere(s, n - 1);
        DownIsFilter(DropFile(s, n - 1), what, n - 1);
      } else {
        DownIsFilter(s, what, n - 1);
      }
    }
  }

  /** A file that goes has this cluster. */
  predicate Frees(s: FS, what: Selection, n: nat, x: Cluster)
    requires n <= |s.Here()|
  {
    x != 0 && exists i :: 0 <= i < n && Goes(s.Here()[i], what) && s.Here()[i].cluster == x
  }

  /** Another slot, and any content, changes exactly when a deleted file names it; then it is freed, and emptied. */
  lemma {:induction false} DownFrees(s: FS, what: Selection, n: nat, x: Cluster)
    requires DownSafe(s, what, n)
    ensures x != s.cwd ==> DeleteDown(s, what, n).0.disk[x] == if Frees(s, what, n, x) then Empty else s.disk[x]
    ensures DeleteDown(s, what, n).0.content[x] == if Frees(s, what, n, x) then "" else s.content[x]
    decreases n
  {
    hide Goes;
    hide Selection.Takes;
    if n > 0 {
      var es := s.Here();
      TakesGoes(es[n - 1], what);
      if what.Takes(es[n - 1]) {
        var r := DropFile(s, n - 1);
        assert forall i :: 0 <= i < n - 1 ==> r.Here()[i] == es[i];
        DownFrees(r, what, n - 1, x);
      } else {
        DownFrees(s, what, n - 1, x);
      }
    }
  }

  lemma {:induction false} DownKeeps(s: FS, what: Selection, n: nat)
    requires Inv(s) && DownSafe(s, what, n)
    ensures Keeps(s, DeleteDown(s, what, n).0)
    decreases n
  {
    hide Structure;
    hide NamesOk;
    hide Located;
    hide Reach;
    if n > 0 {
      DownStep(s, what, n);
      var t := DeleteDown(s, what, n).0;
      hide DeleteDown;
      hide Inv;
      hide Frozen;
      if what.Takes(s.Here()[n - 1]) {
        DropFileKeeps(s, n - 1);
        var r := DropFile(s, n - 1);
        DownKeeps(r, what, n - 1);
        FrozenTwice(s.disk, r.disk, t.disk);
      } else {
        DownKeeps(s, what, n - 1);
      }
    }
  }

  /** The files it takes are safe to take and name unused slots. */
  lemma FilesGo(s: FS, what: Selection)
    requires Inv(s)
    ensures DownSafe(s, what, |s.Here()|)
    ensures forall i :: 0 <= i < |s.Here()| && Goes(s.Here()[i], what) ==> s.disk[s.Here()[i].cluster].Empty?
  {
    forall i | 0 <= i < |s.Here()| && !s.Here()[i].IsDir()
      ensures s.disk[s.Here()[i].cluster].Empty? && s.Here()[i].cluster != s.cwd
    {
      FileSlot(s, i);
    }
  }

  /** In a well-formed state a bulk delete filters the current directory and touches no other. */
  lemma BulkIsFilter(s: FS, what: Selection)
    requires Inv(s)
    ensures DownSafe(s, what, |s.Here()|) && Keeps(s, DeleteFiles(s, what).0)
    ensures var (t, k) := DeleteFiles(s, what);
            && t.Here() == Kept(s.Here(), what) && k == Taken(s.Here(), what)
            && (forall x: Cluster :: x != s.cwd ==> t.disk[x] == s.disk[x])
            && forall x: Cluster :: t.content[x] == if Frees(s, what, |s.Here()|, x) then "" else s.content[x]
  {
    hide Goes;
    hide Selection.Takes;
    InvCwdSafe(s);
    FilesGo(s, what);
    var n := |s.Here()|;
    DownKeeps(s, what, n);
    DownIsFilter(s, what, n);
    assert s.Here()[..n] == s.Here();
    hide Inv;
    hide CwdSafe;
    forall x: Cluster
      ensures x != s.cwd ==> DeleteFiles(s, what).0.disk[x] == s.disk[x]
      ensures DeleteFiles(s, what).0.content[x] == if Frees(s, what, n, x) then "" else s.content[x]
    {
      DownFrees(s, what, n, x);
    }
  }
}
