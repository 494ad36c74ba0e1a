/**
Whole runs of file-system commands, from any well-formed state and from the
state the kernel boots with.
*/
module Runs {
  import opened CStrings
  import opened Names
  import opened Paths
  import opened Disk
  import opened Tree
  import opened Navigate
  import opened Deleting
  import opened Creating
  import opened Moving
  import opened Initial
  import opened Boot

  datatype Command =
    | Cd(name: cstring)
    | TouchFile(name: cstring)
    | Rm(name: cstring)
    | RmDir(name: cstring, force: bool)
    | RmFiles(what: Selection)
    | Mkdir(name: cstring)
    | Cp(src: cstring, dst: cstring)
    | Mv(src: cstring, dst: cstring)

  function Step(s: FS, cmd: Command): FS
    requires CwdSafe(s)
  {
    match cmd
    case Cd(name) => ChangeDir(s, name).0
    case TouchFile(name) => Touch(s, name).0
    case Rm(name) => DeleteFile(s, name).0
    case RmDir(name, force) => DeleteDirectory(s, name, force).0
    case RmFiles(what) => DeleteFiles(s, what).0
    case Mkdir(name) => MakeDirectory(s, name).0
    case Cp(src, dst) => CopyFile(s, src, dst).0
    case Mv(src, dst) => MoveFile(s, src, dst).0
  }

  /**
  What a run has to respect. cd and every form of rm are free. A command that
  creates needs a name that is still new once it is stored, and a slot that is really
  free; touch needs a current directory that has been materialised. mv must not be
  given a dot entry, nor break the tree, the names or the current path.
  */
  ghost predicate Admissible(s: FS, cmd: Command) {
    match cmd
    case Cd(_) => true
    case Rm(_) => true
    case RmDir(_, _) => true
    case RmFiles(_) => true
    case TouchFile(name) =>
      s.disk[s.cwd].Dir? && (TouchCreates(s, name) ==> NewName(s.Here(), name) && FileSlotFresh(s.disk))
    case Mkdir(name) =>
      MkdirCreates(s, name) ==> NewName(Entries(s.disk, 0), FileName(name)) && DirSlotFresh(s.disk)
    case Cp(src, dst) =>
      CopyCreates(s, src, dst) ==>
        NewName(Entries(s.disk, Resolve(s, ParentPath(dst)).dir), FileName(dst)) && FileSlotFresh(s.disk)
    case Mv(src, dst) =>
      MoveCreates(s, src, dst) ==>
        Components(src) != [] && !DotName(LastName(src)) && MoveFits(s, src, dst)
  }

  /** The commands lead from s to t. A well-formed state is always CwdSafe. */
  ghost predicate Run(s: FS, cmds: seq<Command>, t: FS)
    decreases |cmds|
  {
    if cmds == [] then t == s
    else CwdSafe(s) && Admissible(s, cmds[0]) && Run(Step(s, cmds[0]), cmds[1..], t)
  }

  /** touch is given a current directory that exists as an array, and mv no dot entry. */
  predicate Sensible(s: FS, cmd: Command) {
    && (cmd.TouchFile? ==> s.disk[s.cwd].Dir?)
    && (cmd.Mv? && MoveCreates(s, cmd.src, cmd.dst) ==> Components(cmd.src) != [] && !DotName(LastName(cmd.src)))
  }

  /**
  One step leads to a well-formed state exactly when it is admissible, and never
  touches an unreachable directory.
  */
  lemma StepExactly(s: FS, cmd: Command)
    requires Inv(s) && Sensible(s, cmd)
    ensures CwdSafe(s) && Frozen(s.disk, Step(s, cmd).disk)
    ensures Inv(Step(s, cmd)) <==> Admissible(s, cmd)
  {
    hide NewName;
    hide MoveFits;
    hide Find;
    hide Resolve;
    hide Structure;
    hide NamesOk;
    hide Located;
    InvCwdSafe(s);
    match cmd
    case Cd(name) => CdKeeps(s, name);
    case TouchFile(name) => TouchKeeps(s, name);
    case Rm(name) => RmKeeps(s, name);
    case RmDir(name, force) => RmDirKeeps(s, name, force);
    case RmFiles(what) => BulkIsFilter(s, what);
    case Mkdir(name) => MkdirKeeps(s, name);
    case Cp(src, dst) => CopyKeeps(s, src, dst);
    case Mv(src, dst) => MvKeeps(s, src, dst);
  }

  lemma StepKeeps(s: FS, cmd: Command)
    requires Inv(s) && Admissible(s, cmd)
    ensures CwdSafe(s) && Keeps(s, Step(s, cmd))
  {
    StepExactly(s, cmd);
  }

  /**
  In every run the tree, the names and the path stay well-formed, and a directory
  that has become unreachable stays so and is never written or freed again.
  */
  lemma {:induction false} RunKeeps(s: FS, cmds: seq<Command>, t: FS)
    requires Inv(s) && Run(s, cmds, t)
    ensures Keeps(s, t)
    decreases |cmds|
  {
    if cmds != [] {
      StepKeeps(s, cmds[0]);
      var r := Step(s, cmds[0]);
      RunKeeps(r, cmds[1..], t);
      FrozenTwice(s.disk, r.disk, t.disk);
    }
  }

  /** Every run from boot ends in a well-formed state whose path leads to the current directory. */
  lemma RunFromBoot(content: Contents, cmds: seq<Command>, t: FS)
    requires Run(BootState(content), cmds, t)
    ensures Inv(t)
    ensures DirAt(t.disk, 0, Components(t.path)) == t.cwd && |t.path| <= PATH_BOUND
  {
    BootInv(content);
    RunKeeps(BootState(content), cmds, t);
    PathAgrees(t);
  }
}
