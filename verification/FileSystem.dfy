/**
The file system as fs/filesystem.c keeps it: a table of pointers to directory
arrays with their sizes, a content buffer per cluster, the current directory and
the current path buffer. Every method is proved against its function in Disk.

A directory array grows when an entry is added to a full one; otherwise arrays
are edited in place.
*/
module FileSystem {
  import opened CStrings
  import opened Names
  import opened Paths
  import opened Disk

  /** The inner loop of every removal: entries after i move down by one. */
  method ShiftDown(a: array<Entry>, i: nat, n: nat)
    requires i < n <= a.Length
    modifies a
    ensures a[..n - 1] == Without(old(a[..n]), i)
  {
    var j := i;
    while j < n - 1
      invariant i <= j <= n - 1
      invariant forall k :: 0 <= k < i ==> a[k] == old(a[k])
      invariant forall k :: i <= k < j ==> a[k] == old(a[k + 1])
      invariant forall k :: j <= k < n ==> a[k] == old(a[k])
    {
      a[j] := a[j + 1];
      j := j + 1;
    }
  }

  /** format_filename into a local 13-byte buffer. */
  method PrintedName(f: Field) returns (n: cstring)
    ensures n == Format(f)
  {
    var formattedName := new char[13];
    FormatFilename(formattedName, f);
    n := CStr(formattedName);
  }

  method ArrayOf(es: seq<Entry>) returns (a: array<Entry>)
    ensures fresh(a) && a[..] == es
  {
    a := new Entry[|es|](i requires 0 <= i < |es| => es[i]);
  }

  lemma NoSlash(p: cstring)
    ensures LastIndex(p, '/') >= 0 <==> '/' in p
  {
    if '/' in p {
      var k :| 0 <= k < |p| && p[k] == '/';
      assert k <= LastIndex(p, '/');
    }
  }

  lemma ResolvedIndex(s: FS, path: cstring)
    ensures var r := Resolve(s, path); r.At? ==> r.index < |Entries(s.disk, r.dir)|
  {
  }

  lemma NothingLeft(d: Table, c: Cluster, p: cstring)
    requires p == ""
    ensures Components(p) == [] && Walk(d, c, Components(p)) == Whole(c)
  {
  }

  lemma RootPath(path: cstring)
    requires Same(path, "/")
    ensures path == "/" && Components(path) == []
  {
    SameKeeps("/", path, 0, '/');
    LeadingSlashes(path, 1);
  }

  class FileSystem {
    const clusterMap: array<array?<Entry>>
    const clusterSizes: array<nat>
    const content: array<cstring>
    const currentPath: array<char>
    var currentDir: Cluster

    ghost var disk: Table
    ghost var Repr: set<object>

    /** Slot c of the arrays is slot c of the table. */
    ghost predicate Holds(c: Cluster)
      requires clusterMap.Length == MAX_CLUSTERS && clusterSizes.Length == MAX_CLUSTERS
      reads this, clusterMap, clusterSizes, Repr
    {
      var dir := clusterMap[c];
      if dir == null then clusterSizes[c] == 0 && disk[c].Empty?
      else dir in Repr && clusterSizes[c] <= dir.Length && disk[c] == Dir(dir[..clusterSizes[c]])
    }

    ghost predicate Valid()
      reads this, Repr
      ensures Valid() ==> {this, clusterMap, clusterSizes, content, currentPath} <= Repr
    {
      && {this, clusterMap, clusterSizes, content, currentPath} <= Repr
      && clusterMap.Length == MAX_CLUSTERS && clusterSizes.Length == MAX_CLUSTERS
      && content.Length == MAX_CLUSTERS && currentPath.Length == MAX_PATH
      && (forall c: Cluster :: Holds(c))
      && (forall b: Cluster, c: Cluster :: b != c && clusterMap[b] != null ==> clusterMap[b] != clusterMap[c])
      && Terminated(currentPath)
    }

    ghost function State(): FS
      requires Valid()
      reads this, Repr
    {
      FS(disk, content[..], currentDir, CStr(currentPath))
    }

    /** The given directories in the first slots, the rest of the table empty, at the root. */
    constructor (dirs: seq<seq<Entry>>, texts: Contents)
      requires |dirs| <= MAX_CLUSTERS
      ensures Valid() && fresh(Repr)
      ensures State().disk ==
              seq(MAX_CLUSTERS, c requires 0 <= c < MAX_CLUSTERS => if c < |dirs| then Dir(dirs[c]) else Empty)
      ensures State().content == texts && State().cwd == 0 && State().path == "/"
    {
      clusterMap := new array?<Entry>[MAX_CLUSTERS](_ => null);
      clusterSizes := new nat[MAX_CLUSTERS](_ => 0);
      content := new cstring[MAX_CLUSTERS](c requires 0 <= c < MAX_CLUSTERS => texts[c]);
      currentPath := new char[MAX_PATH](_ => '\0');
      currentDir := 0;
      disk := seq(MAX_CLUSTERS, _ => Empty);
      new;
      Repr := {this, clusterMap, clusterSizes, content, currentPath};
      currentPath[0] := '/';
      CStrIs(currentPath, "/");
      assert content[..] == texts;
      for c := 0 to |dirs|
        invariant Valid() && fresh(Repr) && content[..] == texts && currentDir == 0 && CStr(currentPath) == "/"
        invariant forall b: Cluster :: disk[b] == if b < c then Dir(dirs[b]) else Empty
      {
        PlaceDirectory(c, dirs[c]);
      }
      assert disk == seq(MAX_CLUSTERS, c requires 0 <= c < MAX_CLUSTERS => if c < |dirs| then Dir(dirs[c]) else Empty);
    }

    /** cluster_map[c] = an array with these entries, and its size. */
    method PlaceDirectory(c: Cluster, es: seq<Entry>)
      requires Valid() && disk[c].Empty?
      modifies Repr
      ensures Valid() && fresh(Repr - old(Repr))
      ensures State() == old(State()).(disk := old(disk)[c := Dir(es)])
    {
      var dir := ArrayOf(es);
      clusterMap[c] := dir;
      clusterSizes[c] := |es|;
      Repr := Repr + {dir};
      disk := disk[c := Dir(es)];
      forall b: Cluster ensures Holds(b) {
        assert old(Holds(b));
      }
    }

    // ---- the table ----

    /** Room for one more entry in directory c, in a larger array if need be. */
    method MakeRoom(c: Cluster, filler: Entry)
      requires Valid() && disk[c].Dir?
      modifies Repr
      ensures Valid() && fresh(Repr - old(Repr)) && State() == old(State())
      ensures clusterMap[c] != null && clusterSizes[c] < clusterMap[c].Length
    {
      assert Holds(c);
      var dir, n := clusterMap[c], clusterSizes[c];
      if n == dir.Length {
        var larger := new Entry[n + 1](i requires 0 <= i < n + 1 reads dir => if i < n then dir[i] else filler);
        assert larger[..n] == dir[..n];
        clusterMap[c] := larger;
        Repr := Repr + {larger};
        forall b: Cluster ensures Holds(b) {
          assert old(Holds(b));
        }
      }
    }

    /** dir[dir_size] = e, and the size goes up. */
    method AppendEntry(c: Cluster, e: Entry)
      requires Valid() && disk[c].Dir?
      modifies Repr
      ensures Valid() && fresh(Repr - old(Repr))
      ensures State() == old(State()).(disk := Append(old(disk), c, e))
    {
      MakeRoom(c, e);
      label roomy:
      assert Holds(c);
      var dir, n := clusterMap[c], clusterSizes[c];
      dir[n] := e;
      clusterSizes[c] := n + 1;
      disk := Append(disk, c, e);
      forall b: Cluster ensures Holds(b) {
        assert old@roomy(Holds(b));
      }
    }

    /** The removal loop, and the size goes down. */
    method RemoveEntry(c: Cluster, i: nat)
      requires Valid() && i < |Entries(disk, c)|
      modifies Repr
      ensures Valid() && Repr == old(Repr)
      ensures State() == old(State()).(disk := Remove(old(disk), c, i))
    {
      assert Holds(c);
      var dir, n := clusterMap[c], clusterSizes[c];
      ShiftDown(dir, i, n);
      clusterSizes[c] := n - 1;
      disk := Remove(disk, c, i);
      forall b: Cluster ensures Holds(b) {
        assert old(Holds(b));
      }
    }

    method ReplaceEntry(c: Cluster, i: nat, e: Entry)
      requires Valid() && i < |Entries(disk, c)|
      modifies Repr
      ensures Valid() && Repr == old(Repr)
      ensures State() == old(State()).(disk := SetEntry(old(disk), c, i, e))
    {
      assert Holds(c);
      var dir := clusterMap[c];
      dir[i] := e;
      disk := SetEntry(disk, c, i, e);
      forall b: Cluster ensures Holds(b) {
        assert old(Holds(b));
      }
    }

    /** cluster_map[c] = 0, cluster_sizes[c] = 0 */
    method FreeSlot(c: Cluster)
      requires Valid()
      modifies this`disk, clusterMap, clusterSizes
      ensures Valid() && Repr == old(Repr)
      ensures State() == old(State()).(disk := old(disk)[c := Empty])
    {
      clusterMap[c] := null;
      clusterSizes[c] := 0;
      disk := disk[c := Empty];
      forall b: Cluster ensures Holds(b) {
        assert old(Holds(b));
      }
    }

    method SetContent(c: Cluster, text: cstring)
      requires Valid()
      modifies content
      ensures Valid() && Repr == old(Repr)
      ensures State() == old(State()).(content := old(State()).content[c := text])
    {
      content[c] := text;
      forall b: Cluster ensures Holds(b) {
        assert old(Holds(b));
      }
    }

    method SizeOf(c: Cluster) returns (n: nat)
      requires Valid()
      ensures n == |Entries(disk, c)|
    {
      assert Holds(c);
      n := clusterSizes[c];
    }

    method EntryAt(c: Cluster, i: nat) returns (e: Entry)
      requires Valid() && i < |Entries(disk, c)|
      ensures e == Entries(disk, c)[i]
    {
      assert Holds(c);
      e := clusterMap[c][i];
    }

    /** The lookup loop that every command starts with. */
    method FindEntry(c: Cluster, name: cstring) returns (i: nat)
      requires Valid()
      ensures i == Find(Entries(disk, c), name)
    {
      hide Find;
      hide Same;
      hide Format;
      ghost var es := Entries(disk, c);
      i := 0;
      var n := SizeOf(c);
      while i < n
        invariant i <= n && forall k :: 0 <= k < i ==> !Same(es[k].Printed(), name)
      {
        var e := EntryAt(c, i);
        var formattedName := PrintedName(e.name);
        var found := StrEqualNocase(formattedName, name);
        if found {
          FindUnique(es, name, i);
          return;
        }
        i := i + 1;
      }
      FindUnique(es, name, i);
    }

    method FindFreeCluster() returns (c: int)
      requires Valid()
      ensures c == FreeCluster(disk)
    {
      c := 4;
      while c < MAX_CLUSTERS
        invariant 4 <= c <= MAX_CLUSTERS && FreeCluster(disk) == FreeFrom(disk, c)
      {
        assert Holds(c);
        if clusterMap[c] == null && clusterSizes[c] == 0 {
          return;
        }
        c := c + 1;
      }
      c := -1;
    }

    // ---- cd ----

    method GoToRoot()
      requires Valid()
      modifies this`currentDir, currentPath
      ensures Valid() && State() == old(State()).(cwd := 0, path := "/")
    {
      currentDir := 0;
      currentPath[0], currentPath[1] := '/', '\0';
      CStrIs(currentPath, "/");
      forall b: Cluster ensures Holds(b) {
        assert old(Holds(b));
      }
    }

    method GoUp(parent: Cluster)
      requires Valid()
      modifies this`currentDir, currentPath
      ensures Valid() && State() == old(State()).(cwd := parent, path := Shorten(old(State()).path))
    {
      currentDir := parent;
      ShortenInPlace(currentPath);
      forall b: Cluster ensures Holds(b) {
        assert old(Holds(b));
      }
    }

    method GoInto(e: Entry)
      requires Valid() && |State().path| < MAX_PATH - 1
      modifies this`currentDir, currentPath
      ensures Valid() && State() == old(State()).(cwd := e.cluster, path := Extend(old(State()).path, e.Printed()))
    {
      currentDir := e.cluster;
      var formattedName := PrintedName(e.name);
      ExtendInPlace(currentPath, formattedName);
      forall b: Cluster ensures Holds(b) {
        assert old(Holds(b));
      }
    }

    method ChangeDirectory(dirname: cstring) returns (ok: bool)
      requires Valid() && |State().path| < MAX_PATH - 1
      modifies this`currentDir, currentPath
      ensures Valid() && (State(), ok) == ChangeDir(old(State()), dirname)
    {
      var root := StrEqualNocase(dirname, "/");
      var up := StrEqualNocase(dirname, "..");
      var here := StrEqualNocase(dirname, ".");
      var n := SizeOf(currentDir);
      if root {
        GoToRoot();
        return true;
      }
      if up {
        if n >= 2 {
          var e := EntryAt(currentDir, 1);
          GoUp(e.cluster);
          return true;
        }
        return false;
      }
      if here {
        return true;
      }
      var i := FindEntry(currentDir, dirname);
      if i < n {
        var e := EntryAt(currentDir, i);
        if e.IsDir() {
          GoInto(e);
          return true;
        }
      }
      return false;
    }

    // ---- touch and rm ----

    /** Content, parsed name and entry of a new file. */
    method AddFile(dir: Cluster, name: cstring, attributes: bv8, size: nat, cluster: Cluster, text: cstring)
      requires Valid() && disk[dir].Dir?
      modifies Repr
      ensures Valid() && fresh(Repr - old(Repr))
      ensures State() == old(State()).(disk := Append(old(disk), dir, NewEntry(name, attributes, size, cluster)),
                                       content := old(State()).content[cluster := text])
    {
      var fatName := new char[12];
      ParseFilename(name, fatName);
      var field := CStr(fatName);
      SetContent(cluster, text);
      AppendEntry(dir, Entry(field, attributes, size, cluster, FAKE_TIME, FAKE_DATE));
    }

    /** touch. Where it would add an entry the current directory has to exist as an array. */
    method TouchFile(filename: cstring) returns (ok: bool)
      requires Valid() && disk[currentDir].Dir?
      modifies Repr
      ensures Valid() && fresh(Repr - old(Repr))
      ensures (State(), ok) == Touch(old(State()), filename)
    {
      var n := SizeOf(currentDir);
      var i := FindEntry(currentDir, filename);
      if i < n {
        var e := EntryAt(currentDir, i);
        ReplaceEntry(currentDir, i, e.(time := FAKE_TIME, date := FAKE_DATE));
        return true;
      }
      if n >= DIR_LIMIT {
        return false;
      }
      var cluster := FindFreeCluster();
      if cluster == -1 {
        return false;
      }
      AddFile(currentDir, filename, 0, 0, cluster, "");
      return true;
    }

    /** What every deletion of a file does with its cluster. */
    method ReleaseCluster(cluster: Cluster)
      requires Valid()
      modifies this`disk, clusterMap, clusterSizes, content
      ensures Valid() && Repr == old(Repr)
      ensures State() == Release(old(State()), cluster)
    {
      if cluster > 0 && cluster < MAX_CLUSTERS {
        FreeSlot(cluster);
        SetContent(cluster, "");
      }
    }

    /** Release the file's cluster, then close the gap it leaves. */
    method DropFileAt(i: nat, e: Entry)
      requires Valid() && i < |State().Here()| && e == State().Here()[i] && e.cluster != currentDir
      modifies Repr
      ensures Valid() && Repr == old(Repr)
      ensures State() == DropFile(old(State()), i)
      ensures State().cwd == old(State()).cwd && State().Here() == Without(old(State()).Here(), i)
    {
      ReleaseCluster(e.cluster);
      RemoveEntry(currentDir, i);
    }

    method DeleteFile(filename: cstring) returns (ok: bool)
      requires Valid() && RmSafe(State(), filename)
      modifies Repr
      ensures Valid() && Repr == old(Repr)
      ensures (State(), ok) == Disk.DeleteFile(old(State()), filename)
    {
      var n := SizeOf(currentDir);
      var i := FindEntry(currentDir, filename);
      if i < n {
        var e := EntryAt(currentDir, i);
        if !e.IsDir() {
          DropFileAt(i, e);
          return true;
        }
      }
      return false;
    }

    /** The loop of the forced form: files from the third entry on are released, subdirectories are not. */
    method ReleaseFilesOf(target: Cluster)
      requires Valid() && NoFileNames(disk, target, currentDir)
      modifies this`disk, clusterMap, clusterSizes, content
      ensures Valid() && Repr == old(Repr)
      ensures State() == ReleaseFiles(old(State()), Entries(old(disk), target), 2)
    {
      ghost var es, s := Entries(disk, target), State();
      assert Holds(target);
      var targetDir, n := clusterMap[target], clusterSizes[target];
      var j := 2;
      while j < n
        invariant Valid() && Repr == old(Repr) && 2 <= j && currentDir == old(currentDir)
        invariant targetDir != null ==> n <= targetDir.Length && targetDir[..n] == es
        invariant targetDir == null ==> n == 0
        invariant n == |es|
        invariant ReleaseFiles(s, es, 2) == ReleaseFiles(State(), es, j)
      {
        var e := targetDir[j];
        assert e == es[j];
        if !e.IsDir() {
          ReleaseCluster(e.cluster);
        }
        j := j + 1;
      }
    }

    method DeleteDirectory(dirname: cstring, force: bool) returns (ok: bool)
      requires Valid() && CwdSafe(State())
      modifies Repr
      ensures Valid() && Repr == old(Repr)
      ensures (State(), ok) == Disk.DeleteDirectory(old(State()), dirname, force)
    {
      hide Find;
      hide Same;
      ghost var s := State();
      var dot := StrEqualNocase(dirname, ".");
      var dotdot := StrEqualNocase(dirname, "..");
      if dot || dotdot {
        return false;
      }
      var n := SizeOf(currentDir);
      var i := FindEntry(currentDir, dirname);
      if i == n {
        return false;
      }
      var e := EntryAt(currentDir, i);
      if !e.IsDir() {
        return false;
      }
      assert s.Here()[i] == e && NoFileNames(s.disk, e.cluster, s.cwd);
      NamedElsewhere(s, i, dirname);
      var inside := SizeOf(e.cluster);
      if !force && inside > 2 {
        return false;
      }
      ReleaseKeepsCwd(s, Entries(s.disk, e.cluster), 2);
      if force && inside > 2 {
        ReleaseFilesOf(e.cluster);
      }
      FreeSlot(e.cluster);
      RemoveEntry(currentDir, i);
      return true;
    }

    /** Whether a bulk delete takes the entry. */
    method IsTaken(e: Entry, what: Selection) returns (taken: bool)
      ensures taken == what.Takes(e)
    {
      if e.IsDir() {
        return false;
      }
      match what
      case All =>
        return true;
      case Ending(suffix) =>
        var formattedName := PrintedName(e.name);
        taken := HasExtension(formattedName, suffix);
    }

    /** The backward loop shared by the two bulk deletes of the current directory. */
    method DeleteFiles(what: Selection) returns (deleted: nat)
      requires Valid() && DownSafe(State(), what, |State().Here()|)
      modifies Repr
      ensures Valid() && Repr == old(Repr)
      ensures (State(), deleted) == Disk.DeleteFiles(old(State()), what)
    {
      hide DropFile;
      hide DeleteDown;
      ghost var s := State();
      deleted := 0;
      var i: nat := SizeOf(currentDir);
      while i > 0
        invariant Valid() && Repr == old(Repr)
        invariant DownSafe(State(), what, i)
        invariant DeleteDown(s, what, |s.Here()|).0 == DeleteDown(State(), what, i).0
        invariant DeleteDown(s, what, |s.Here()|).1 == DeleteDown(State(), what, i).1 + deleted
      {
        DownStep(State(), what, i);
        i := i - 1;
        var e := EntryAt(currentDir, i);
        var taken := IsTaken(e, what);
        if taken {
          DropFileAt(i, e);
          deleted := deleted + 1;
        }
      }
      DownDone(State(), what);
    }

    // ---- paths ----

    /** Put back the directory and the path saved when the walk began. */
    method Restore(savedDir: Cluster, savedPath: cstring)
      requires Valid() && |savedPath| < MAX_PATH
      modifies this`currentDir, currentPath
      ensures Valid() && State() == old(State()).(cwd := savedDir, path := savedPath)
    {
      currentDir := savedDir;
      StrCopy(currentPath, savedPath);
      forall b: Cluster ensures Holds(b) {
        assert old(Holds(b));
      }
    }

    /** One component of the walk: an answer, or one directory further on. */
    method EnterComponent(w: cstring, last: bool, ghost cs: seq<cstring>) returns (r: Resolution, further: bool)
      requires Valid() && cs != [] && cs[0] == w && last == (|cs| == 1)
      modifies this`currentDir
      ensures Valid() && State() == old(State()).(cwd := currentDir)
      ensures if further then Walk(disk, currentDir, cs[1..]) == Walk(disk, old(currentDir), cs)
              else r == Walk(disk, old(currentDir), cs)
    {
      r, further := NotFound, false;
      var n := SizeOf(currentDir);
      var k := FindEntry(currentDir, w);
      if k < n {
        if last {
          return At(currentDir, k), false;
        }
        var e := EntryAt(currentDir, k);
        if e.IsDir() {
          further := true;
          currentDir := e.cluster;
          forall b: Cluster ensures Holds(b) {
            assert old(Holds(b));
          }
        }
      }
    }

    /** The loop over the components; it leaves the current directory wherever the walk ended. */
    method WalkComponents(path: cstring, start: nat) returns (r: Resolution)
      requires Valid() && start <= |path| && ComponentsFit(path[start..])
      modifies this`currentDir
      ensures Valid() && State() == old(State()).(cwd := currentDir)
      ensures r == Walk(disk, old(currentDir), Components(path[start..]))
    {
      hide Walk;
      hide Components;
      var i := start;
      var component := new char[13];
      while i < |path|
        invariant start <= i <= |path| && ComponentsFit(path[i..])
        invariant Valid() && State() == old(State()).(cwd := currentDir)
        invariant Walk(disk, old(currentDir), Components(path[start..]))
                  == Walk(disk, currentDir, Components(path[i..]))
      {
        ghost var cs := Components(path[i..]);
        i := ReadComponent(path, i, component);
        var w: cstring := CStr(component);
        assert w == "" ==> cs == Components(path[i..]);
        if w != "" {
          assert cs[0] == w && cs[1..] == Components(path[i..]);
          var further;
          r, further := EnterComponent(w, i == |path|, cs);
          if !further {
            return;
          }
        }
      }
      NothingLeft(disk, currentDir, path[i..]);
      r := Whole(currentDir);
    }

    /** resolve_path: the walk starts at the root or here, and every exit puts the directory and the path back. */
    method ResolvePath(path: cstring) returns (r: Resolution)
      requires Valid() && |path| < MAX_PATH && ComponentsFit(path)
      modifies this`currentDir, currentPath
      ensures Valid() && State() == old(State())
      ensures r == Resolve(old(State()), path)
    {
      var savedDir, savedPath := currentDir, CStr(currentPath);
      var root := StrEqualNocase(path, "/");
      if root {
        RootPath(path);
        return Whole(0);
      }
      var i := 0;
      if |path| > 0 && path[0] == '/' {
        GoToRoot();
        i := 1;
      }
      LeadingSlashes(path, i);
      r := WalkComponents(path, i);
      Restore(savedDir, savedPath);
    }

    // ---- mkdir ----

    /** Parent text and last name of a mkdir argument; without a slash the parent is the current path. */
    method SplitArgument(dirname: cstring) returns (parent: cstring, name: cstring)
      requires Valid() && |dirname| < MAX_PATH - 1 && |FileName(dirname)| <= 12
      ensures parent == MkdirParent(State(), dirname) && name == FileName(dirname)
    {
      var parentPath, dirName := new char[MAX_PATH], new char[13];
      var slash := FindLastSlash(dirname);
      if slash >= 0 {
        GetParentPath(dirname, parentPath);
        GetFilename(dirname, dirName);
      } else {
        StrCopy(parentPath, CStr(currentPath));
        StrCopy(dirName, dirname);
      }
      NoSlash(dirname);
      parent, name := CStr(parentPath), CStr(dirName);
    }

    /**
    mkdir. Its last name has to fit a 13-byte buffer, and the directory it is
    added to has to exist as an array.
    */
    method CreateDirectory(dirname: cstring) returns (ok: bool)
      requires Valid() && |dirname| < MAX_PATH - 1 && |FileName(dirname)| <= 12 && |State().path| < MAX_PATH - 1
      requires var (at, accepted) := ChangeDir(State(), MkdirParent(State(), dirname)); accepted ==> disk[at.cwd].Dir?
      modifies Repr
      ensures Valid() && fresh(Repr - old(Repr))
      ensures (State(), ok) == MakeDirectory(old(State()), dirname)
    {
      hide ChangeDir;
      hide Find;
      hide FreeCluster;
      hide DotEntries;
      hide MkdirParent;
      if dirname == "" {
        return false;
      }
      var parent, name := SplitArgument(dirname);
      var savedDir, savedPath := currentDir, CStr(currentPath);
      var entered := ChangeDirectory(parent);
      if !entered {
        return false;
      }
      ok := AddIfNew(name);
      Restore(savedDir, savedPath);
    }

    /** In the parent: nothing if the name is taken or no slot is left, the new directory otherwise. */
    method AddIfNew(name: cstring) returns (ok: bool)
      requires Valid() && disk[currentDir].Dir?
      modifies Repr
      ensures Valid() && fresh(Repr - old(Repr))
      ensures var c, here := FreeCluster(old(disk)), Entries(old(disk), old(currentDir));
              ok == (Find(here, name) == |here| && c != -1)
              && State() == if !ok then old(State()) else old(State()).(disk :=
                   Append(old(disk), old(currentDir), NewEntry(name, ATTR_DIRECTORY, 0, c))
                     [c := Dir(DotEntries(c, old(currentDir)))])
    {
      var n := SizeOf(currentDir);
      var i := FindEntry(currentDir, name);
      var cluster := FindFreeCluster();
      ok := i == n && cluster != -1;
      if ok {
        AddDirectory(name, cluster);
      }
    }

    /** The new entry in the current directory and the dot entries of the new one. */
    method AddDirectory(name: cstring, cluster: Cluster)
      requires Valid() && disk[currentDir].Dir? && disk[cluster].Empty?
      modifies Repr
      ensures Valid() && fresh(Repr - old(Repr))
      ensures State() == old(State()).(disk :=
                Append(old(disk), old(currentDir), NewEntry(name, ATTR_DIRECTORY, 0, cluster))
                  [cluster := Dir(DotEntries(cluster, old(currentDir)))])
    {
      var fatName := new char[12];
      ParseFilename(name, fatName);
      AppendEntry(currentDir, Entry(CStr(fatName), ATTR_DIRECTORY, 0, cluster, FAKE_TIME, FAKE_DATE));
      PlaceDirectory(cluster, DotEntries(cluster, currentDir));
    }

    // ---- cp and mv ----

    /** get_parent_path and get_filename into their buffers. */
    method SplitDestination(path: cstring) returns (parent: cstring, name: cstring)
      requires |path| < MAX_PATH - 1 && |FileName(path)| <= 12
      ensures parent == ParentPath(path) && name == FileName(path)
    {
      var parentPath, fileName := new char[MAX_PATH], new char[13];
      GetParentPath(path, parentPath);
      GetFilename(path, fileName);
      parent, name := CStr(parentPath), CStr(fileName);
    }

    /** Where cp and mv would add their entry, under what name, and whether it is free there. */
    method FindDestination(dst: cstring) returns (to: Resolution, name: cstring, free: bool)
      requires Valid() && |dst| < MAX_PATH - 1 && ComponentsFit(ParentPath(dst)) && |FileName(dst)| <= 12
      modifies this`currentDir, currentPath
      ensures Valid() && State() == old(State())
      ensures to == Resolve(State(), ParentPath(dst)) && name == FileName(dst)
      ensures free == (!to.NotFound? && Find(Entries(disk, to.dir), name) == |Entries(disk, to.dir)|)
    {
      hide Resolve;
      hide ComponentsFit;
      hide Find;
      hide FreeCluster;
      hide LastIndex;
      var parent, last := SplitDestination(dst);
      name := last;
      to := ResolvePath(parent);
      free := false;
      if !to.NotFound? {
        var n := SizeOf(to.dir);
        var i := FindEntry(to.dir, name);
        free := i == n;
      }
    }

    /** cp. Components fit their buffers, and the destination directory exists as an array. */
    method CopyFile(src: cstring, dst: cstring) returns (ok: bool)
      requires Valid() && |src| < MAX_PATH && |dst| < MAX_PATH - 1
      requires ComponentsFit(src) && ComponentsFit(ParentPath(dst)) && |FileName(dst)| <= 12
      requires var to := Resolve(State(), ParentPath(dst)); !to.NotFound? ==> disk[to.dir].Dir?
      modifies Repr
      ensures Valid() && fresh(Repr - old(Repr))
      ensures (State(), ok) == Disk.CopyFile(old(State()), src, dst)
    {
      hide Resolve;
      hide ComponentsFit;
      hide Find;
      hide FreeCluster;
      hide LastIndex;
      var from := ResolvePath(src);
      if !from.At? {
        return false;
      }
      ResolvedIndex(State(), src);
      var x := EntryAt(from.dir, from.index);
      var to, name, free := FindDestination(dst);
      var cluster := FindFreeCluster();
      if x.IsDir() || !free || cluster == -1 {
        return false;
      }
      AddFile(to.dir, name, x.attributes, x.size, cluster, content[x.cluster]);
      return true;
    }

    /** The ".." of a moved directory is pointed at its new parent. */
    method PointToParent(x: Entry, to: Cluster)
      requires Valid()
      modifies Repr
      ensures Valid() && Repr == old(Repr)
      ensures State() == old(State()).(disk := Reparent(old(disk), x, to))
    {
      if x.IsDir() && x.cluster > 0 {
        var n := SizeOf(x.cluster);
        if n >= 2 {
          var dotdot := EntryAt(x.cluster, 1);
          ReplaceEntry(x.cluster, 1, dotdot.(cluster := to));
        }
      }
    }

    /** The second lookup of mv and the removal. */
    method RemoveByName(c: Cluster, name: cstring)
      requires Valid()
      modifies Repr
      ensures Valid() && Repr == old(Repr)
      ensures var i := Find(Entries(old(disk), c), name);
              State() == old(State()).(disk :=
                if i < |Entries(old(disk), c)| then Remove(old(disk), c, i) else old(disk))
    {
      var n := SizeOf(c);
      var i := FindEntry(c, name);
      if i < n {
        RemoveEntry(c, i);
      }
    }

    /** The four steps of a move: the copy, the parent link, the new entry, the removal. */
    method Relocate(x: Entry, from: Cluster, srcName: cstring, to: Cluster, name: cstring)
      requires Valid() && disk[to].Dir?
      modifies Repr
      ensures Valid() && fresh(Repr - old(Repr))
      ensures var d := Append(Reparent(old(disk), x, to), to, x.(name := Parse(name)));
              var i := Find(Entries(d, from), srcName);
              State() == old(State()).(disk := if i < |Entries(d, from)| then Remove(d, from, i) else d)
    {
      var fatName := new char[12];
      ParseFilename(name, fatName);
      var y := x.(name := CStr(fatName));
      PointToParent(x, to);
      AppendEntry(to, y);
      RemoveByName(from, srcName);
    }

    /** mv. Components fit their buffers, and the destination directory exists as an array. */
    method MoveEntry(src: cstring, dst: cstring) returns (ok: bool)
      requires Valid() && |src| < MAX_PATH - 1 && |dst| < MAX_PATH - 1
      requires ComponentsFit(src) && |FileName(src)| <= 12
      requires ComponentsFit(ParentPath(dst)) && |FileName(dst)| <= 12
      requires var to := Resolve(State(), ParentPath(dst)); !to.NotFound? ==> disk[to.dir].Dir?
      modifies Repr
      ensures Valid() && fresh(Repr - old(Repr))
      ensures (State(), ok) == MoveFile(old(State()), src, dst)
    {
      hide Resolve;
      hide ComponentsFit;
      hide Find;
      hide FreeCluster;
      hide LastIndex;
      var from := ResolvePath(src);
      if !from.At? {
        return false;
      }
      var srcParent, srcName := SplitDestination(src);
      var to, name, free := FindDestination(dst);
      if !free {
        return false;
      }
      ResolvedIndex(State(), src);
      var x := EntryAt(from.dir, from.index);
      Relocate(x, from.dir, srcName, to.dir, name);
      return true;
    }
  }
}
