/**
The file system as a value: the table of 16 clusters, the simulated contents,
the current directory and path, and what each command makes of them. Module
FileSystem proves its array code against these functions.
Source: fs/filesystem.c.
*/
module Disk {
  import opened CStrings
  import opened Names
  import opened Paths

  const MAX_CLUSTERS := 16
  const DIR_LIMIT := 20
  const ATTR_DIRECTORY: bv8 := 0x10
  const FAKE_TIME := 0x5000
  const FAKE_DATE := 0x4D58

  type Cluster = c: nat | c < MAX_CLUSTERS

  datatype Entry = Entry(name: Field, attributes: bv8, size: nat, cluster: Cluster, time: nat, date: nat) {
    predicate IsDir() {
      attributes & ATTR_DIRECTORY != 0
    }

    function Printed(): (n: cstring)
      ensures |n| <= 12
    {
      Format(name)
    }
  }

  /** A slot of cluster_map with its size: no directory, or a directory and its entries. */
  datatype Slot = Empty | Dir(entries: seq<Entry>)

  type Table = d: seq<Slot> | |d| == MAX_CLUSTERS witness seq(MAX_CLUSTERS, _ => Empty)
  type Contents = t: seq<cstring> | |t| == MAX_CLUSTERS witness seq(MAX_CLUSTERS, _ => "")

  function Entries(d: Table, c: Cluster): seq<Entry> {
    if d[c].Dir? then d[c].entries else []
  }

  datatype FS = FS(disk: Table, content: Contents, cwd: Cluster, path: cstring) {
    /** The entries of the current directory. */
    function Here(): seq<Entry> {
      Entries(disk, cwd)
    }
  }

  // ---- changes to the table ----

  function Append(d: Table, c: Cluster, e: Entry): Table {
    d[c := Dir(Entries(d, c) + [e])]
  }

  function Without(es: seq<Entry>, i: nat): seq<Entry>
    requires i < |es|
  {
    es[..i] + es[i + 1..]
  }

  function Remove(d: Table, c: Cluster, i: nat): Table
    requires i < |Entries(d, c)|
  {
    d[c := Dir(Without(Entries(d, c), i))]
  }

  function SetEntry(d: Table, c: Cluster, i: nat, e: Entry): Table
    requires i < |Entries(d, c)|
  {
    d[c := Dir(Entries(d, c)[i := e])]
  }

  // ---- looking names up ----

  function FindFrom(es: seq<Entry>, name: string, from: nat): (i: nat)
    requires from <= |es|
    ensures from <= i <= |es|
    ensures forall k :: from <= k < i ==> !Same(es[k].Printed(), name)
    ensures i < |es| ==> Same(es[i].Printed(), name)
    decreases |es| - from
  {
    if from == |es| || Same(es[from].Printed(), name) then from else FindFrom(es, name, from + 1)
  }

  /** The first entry whose printed name is the given one ignoring case; |es| when there is none. */
  function Find(es: seq<Entry>, name: string): (i: nat)
    ensures i <= |es|
    ensures forall k :: 0 <= k < i ==> !Same(es[k].Printed(), name)
    ensures i < |es| ==> Same(es[i].Printed(), name)
  {
    FindFrom(es, name, 0)
  }

  lemma FindUnique(es: seq<Entry>, name: string, i: nat)
    requires i <= |es| && forall k :: 0 <= k < i ==> !Same(es[k].Printed(), name)
    requires i < |es| ==> Same(es[i].Printed(), name)
    ensures Find(es, name) == i
  {
    var j := Find(es, name);
    assert j <= i <= j;
  }

  function FreeFrom(d: Table, i: nat): (c: int)
    requires i <= MAX_CLUSTERS
    ensures c == -1 || (i <= c < MAX_CLUSTERS && d[c].Empty?)
    ensures forall k :: i <= k < (if c == -1 then MAX_CLUSTERS else c) ==> d[k].Dir?
    decreases MAX_CLUSTERS - i
  {
    if i == MAX_CLUSTERS then -1 else if d[i].Empty? then i else FreeFrom(d, i + 1)
  }

  /** Some entry's printed name is the given one ignoring case. */
  predicate HasName(es: seq<Entry>, name: string) {
    exists i :: 0 <= i < |es| && Same(es[i].Printed(), name)
  }

  lemma FindsName(es: seq<Entry>, name: string)
    ensures Find(es, name) < |es| <==> HasName(es, name)
  {
    hide Find;
    hide Same;
    hide Format;
  }

  /** The lowest unused slot from 4 on, or -1. Files do not mark their slots as used. */
  function FreeCluster(d: Table): (c: int)
    ensures c == -1 || (4 <= c < MAX_CLUSTERS && d[c].Empty?)
    ensures forall k :: 4 <= k < (if c == -1 then MAX_CLUSTERS else c) ==> d[k].Dir?
  {
    FreeFrom(d, 4)
  }

  /** A slot from 4 to 15 holds no directory. */
  predicate SlotLeft(d: Table) {
    exists k :: 4 <= k < 16 && d[k].Empty?
  }

  lemma FindsSlot(d: Table)
    ensures FreeCluster(d) != -1 <==> SlotLeft(d)
  {
    hide FreeCluster;
    assert FreeCluster(d) != -1 ==> d[FreeCluster(d)].Empty?;
  }

  /** resolve_path: failure, a directory with no entry, or an entry of a directory. */
  datatype Resolution = NotFound | Whole(dir: Cluster) | At(dir: Cluster, index: nat)

  /** The walk over components: all but the last must be directories. */
  function Walk(d: Table, from: Cluster, cs: seq<cstring>): (r: Resolution)
    ensures r.At? ==> r.index < |Entries(d, r.dir)|
    ensures r.At? <==> cs != [] && r != NotFound
    decreases |cs|
  {
    if cs == [] then Whole(from)
    else
      var es := Entries(d, from);
      var i := Find(es, cs[0]);
      if i == |es| then NotFound
      else if |cs| == 1 then At(from, i)
      else if es[i].IsDir() then Walk(d, es[i].cluster, cs[1..])
      else NotFound
  }

  function Resolve(s: FS, path: cstring): Resolution {
    Walk(s.disk, if Absolute(path) then 0 else s.cwd, Components(path))
  }

  // ---- the commands; the flag is the C return value being 0 ----

  function ChangeDir(s: FS, name: cstring): (r: (FS, bool))
    ensures r.0.disk == s.disk && r.0.content == s.content
    ensures !r.1 ==> r.0 == s
  {
    if Same(name, "/") then (s.(cwd := 0, path := "/"), true)
    else if Same(name, "..") then
      if |s.Here()| >= 2 then (s.(cwd := s.Here()[1].cluster, path := Shorten(s.path)), true) else (s, false)
    else if Same(name, ".") then (s, true)
    else
      var i := Find(s.Here(), name);
      if i < |s.Here()| && s.Here()[i].IsDir() then
        (s.(cwd := s.Here()[i].cluster, path := Extend(s.path, s.Here()[i].Printed())), true)
      else (s, false)
  }

  function NewEntry(name: cstring, attributes: bv8, size: nat, cluster: Cluster): Entry {
    Entry(Parse(name), attributes, size, cluster, FAKE_TIME, FAKE_DATE)
  }

  /** touch would add an entry: no such name, room in the directory and in the table. */
  predicate TouchCreates(s: FS, name: cstring) {
    && Find(s.Here(), name) == |s.Here()|
    && |s.Here()| < DIR_LIMIT
    && FreeCluster(s.disk) != -1
  }

  function Touch(s: FS, name: cstring): (FS, bool) {
    var i := Find(s.Here(), name);
    if i < |s.Here()| then
      (s.(disk := SetEntry(s.disk, s.cwd, i, s.Here()[i].(time := FAKE_TIME, date := FAKE_DATE))), true)
    else if TouchCreates(s, name) then
      var c := FreeCluster(s.disk);
      (s.(disk := Append(s.disk, s.cwd, NewEntry(name, 0, 0, c)), content := s.content[c := ""]), true)
    else (s, false)
  }

  /** What deleting a file does to the cluster it names. */
  function Release(s: FS, c: Cluster): FS {
    if c > 0 then s.(disk := s.disk[c := Empty], content := s.content[c := ""]) else s
  }

  /** Release the cluster of entry i of the current directory, then close the gap. */
  function DropFile(s: FS, i: nat): FS
    requires i < |s.Here()| && s.Here()[i].cluster != s.cwd
  {
    var r := Release(s, s.Here()[i].cluster);
    r.(disk := Remove(r.disk, s.cwd, i))
  }

  /** No file entry of directory p names cluster c. */
  predicate NoFileNames(d: Table, p: Cluster, c: Cluster) {
    forall j :: 0 <= j < |Entries(d, p)| && Entries(d, p)[j].cluster == c ==> Entries(d, p)[j].IsDir()
  }

  /**
  In the current directory only "." and ".." name it, and no file in one of its
  subdirectories does. Deleting an entry that breaks this would free the very
  directory that is being edited.
  */
  predicate CwdSafe(s: FS) {
    && (forall i :: 0 <= i < |s.Here()| && s.Here()[i].cluster == s.cwd
          ==> s.Here()[i].IsDir() && (Same(s.Here()[i].Printed(), ".") || Same(s.Here()[i].Printed(), "..")))
    && (forall i :: 0 <= i < |s.Here()| && s.Here()[i].IsDir() ==> NoFileNames(s.disk, s.Here()[i].cluster, s.cwd))
  }

  /** An entry looked up by another name than "." and ".." does not name the current directory. */
  lemma NamedElsewhere(s: FS, i: nat, name: cstring)
    requires CwdSafe(s) && i < |s.Here()| && Same(s.Here()[i].Printed(), name)
    requires !Same(name, ".") && !Same(name, "..")
    ensures s.Here()[i].cluster != s.cwd
  {
    SameEquivalence(s.Here()[i].Printed(), name, s.Here()[i].Printed());
    SameEquivalence(name, s.Here()[i].Printed(), ".");
    SameEquivalence(name, s.Here()[i].Printed(), "..");
  }

  /** rm of a file does not hit one that names the current directory. */
  predicate RmSafe(s: FS, name: cstring) {
    var i := Find(s.Here(), name);
    i < |s.Here()| && !s.Here()[i].IsDir() ==> s.Here()[i].cluster != s.cwd
  }

  function DeleteFile(s: FS, name: cstring): (FS, bool)
    requires RmSafe(s, name)
  {
    var i := Find(s.Here(), name);
    if i < |s.Here()| && !s.Here()[i].IsDir() then (DropFile(s, i), true) else (s, false)
  }

  /** Release the files among the entries es[from..]; directories below are left alone. */
  function ReleaseFiles(s: FS, es: seq<Entry>, from: nat): FS
    decreases |es| - from
  {
    if from >= |es| then s
    else ReleaseFiles(if es[from].IsDir() then s else Release(s, es[from].cluster), es, from + 1)
  }

  lemma ReleaseKeepsCwd(s: FS, es: seq<Entry>, from: nat)
    requires forall i :: from <= i < |es| && !es[i].IsDir() ==> es[i].cluster != s.cwd
    ensures ReleaseFiles(s, es, from).cwd == s.cwd && ReleaseFiles(s, es, from).path == s.path
    ensures ReleaseFiles(s, es, from).disk[s.cwd] == s.disk[s.cwd]
    decreases |es| - from
  {
  }

  function DeleteDirectory(s: FS, name: cstring, force: bool): (r: (FS, bool))
    requires CwdSafe(s)
    ensures !r.1 ==> r.0 == s
  {
    var i := Find(s.Here(), name);
    if Same(name, ".") || Same(name, "..") || i == |s.Here()| || !s.Here()[i].IsDir() then (s, false)
    else
      var t := s.Here()[i].cluster;
      var inside := Entries(s.disk, t);
      if !force && |inside| > 2 then (s, false)
      else
        var r := if |inside| > 2 then ReleaseFiles(s, inside, 2) else s;
        assert r.cwd == s.cwd && Entries(r.disk, s.cwd) == s.Here() by { ReleaseKeepsCwd(s, inside, 2); }
        (r.(disk := Remove(r.disk[t := Empty], s.cwd, i)), true)
  }

  /** The files a bulk delete takes: all of them, or those with the given ending. */
  datatype Selection = All | Ending(suffix: cstring) {
    predicate Takes(e: Entry) {
      && !e.IsDir()
      && (Ending? ==> HasSuffix(e.Printed(), suffix))
    }
  }

  /** None of the first n entries that would be taken names the current directory. */
  predicate DownSafe(s: FS, what: Selection, n: nat) {
    n <= |s.Here()| && forall i :: 0 <= i < n && what.Takes(s.Here()[i]) ==> s.Here()[i].cluster != s.cwd
  }

  /** The backward loop: entries below n are still to be looked at. */
  function DeleteDown(s: FS, what: Selection, n: nat): (FS, nat)
    requires DownSafe(s, what, n)
    decreases n
  {
    if n == 0 then (s, 0)
    else if what.Takes(s.Here()[n - 1]) then
      var (r, k) := DeleteDown(DropFile(s, n - 1), what, n - 1);
      (r, k + 1)
    else DeleteDown(s, what, n - 1)
  }

  /** One turn of the loop. */
  lemma DownStep(s: FS, what: Selection, n: nat)
    requires 0 < n && DownSafe(s, what, n)
    ensures var taken := what.Takes(s.Here()[n - 1]);
            var r := if taken then DropFile(s, n - 1) else s;
            && DownSafe(r, what, n - 1)
            && DeleteDown(s, what, n).0 == DeleteDown(r, what, n - 1).0
            && DeleteDown(s, what, n).1 == DeleteDown(r, what, n - 1).1 + if taken then 1 else 0
  {
  }

  lemma DownDone(s: FS, what: Selection)
    ensures DeleteDown(s, what, 0) == (s, 0)
  {
  }

  function DeleteFiles(s: FS, what: Selection): (FS, nat)
    requires DownSafe(s, what, |s.Here()|)
  {
    DeleteDown(s, what, |s.Here()|)
  }

  /** The two dot entries of a new directory. */
  function DotEntries(self: Cluster, parent: Cluster): seq<Entry> {
    [Entry(".          ", ATTR_DIRECTORY, 0, self, FAKE_TIME, FAKE_DATE),
     Entry("..         ", ATTR_DIRECTORY, 0, parent, FAKE_TIME, FAKE_DATE)]
  }

  /** mkdir looks its parent up with cd; without a slash the parent is the current path. */
  function MkdirParent(s: FS, name: cstring): cstring {
    if '/' in name then ParentPath(name) else s.path
  }

  function MakeDirectory(s: FS, name: cstring): (FS, bool) {
    if name == "" then (s, false)
    else
      var (at, ok) := ChangeDir(s, MkdirParent(s, name));
      if !ok then (s, false)
      else
        var c := FreeCluster(s.disk);
        if Find(at.Here(), FileName(name)) < |at.Here()| || c == -1 then (s, false)
        else
          var d := Append(s.disk, at.cwd, NewEntry(FileName(name), ATTR_DIRECTORY, 0, c));
          (s.(disk := d[c := Dir(DotEntries(c, at.cwd))]), true)
  }

  /** cp would add an entry: the source is a file, the destination is free, and a cluster is left. */
  predicate CopyCreates(s: FS, src: cstring, dst: cstring) {
    var from, to := Resolve(s, src), Resolve(s, ParentPath(dst));
    && from.At? && !Entries(s.disk, from.dir)[from.index].IsDir()
    && !to.NotFound?
    && Find(Entries(s.disk, to.dir), FileName(dst)) == |Entries(s.disk, to.dir)|
    && FreeCluster(s.disk) != -1
  }

  function CopyFile(s: FS, src: cstring, dst: cstring): (FS, bool) {
    if CopyCreates(s, src, dst) then
      var from, to := Resolve(s, src), Resolve(s, ParentPath(dst));
      var x := Entries(s.disk, from.dir)[from.index];
      var c := FreeCluster(s.disk);
      (s.(disk := Append(s.disk, to.dir, NewEntry(FileName(dst), x.attributes, x.size, c)),
          content := s.content[c := s.content[x.cluster]]), true)
    else (s, false)
  }

  /** mv would add an entry: the source is an entry and the destination name is free. */
  predicate MoveCreates(s: FS, src: cstring, dst: cstring) {
    var from, to := Resolve(s, src), Resolve(s, ParentPath(dst));
    && from.At?
    && !to.NotFound?
    && Find(Entries(s.disk, to.dir), FileName(dst)) == |Entries(s.disk, to.dir)|
  }

  /** A moved directory's ".." is pointed at the destination. */
  function Reparent(d: Table, x: Entry, to: Cluster): Table {
    if x.IsDir() && x.cluster > 0 && |Entries(d, x.cluster)| >= 2 then
      SetEntry(d, x.cluster, 1, Entries(d, x.cluster)[1].(cluster := to))
    else d
  }

  /** The removal looks the source up again, by the text after its last slash. */
  function MoveFile(s: FS, src: cstring, dst: cstring): (FS, bool) {
    if MoveCreates(s, src, dst) then
      var from, to := Resolve(s, src), Resolve(s, ParentPath(dst));
      var x := Entries(s.disk, from.dir)[from.index];
      var d := Append(Reparent(s.disk, x, to.dir), to.dir, x.(name := Parse(FileName(dst))));
      var i := Find(Entries(d, from.dir), FileName(src));
      (s.(disk := if i < |Entries(d, from.dir)| then Remove(d, from.dir, i) else d), true)
    else (s, false)
  }
}
