/**
The tables fs_create_test_fs fills in: the root with three directories and three
files, and the three directories. Source: fs/filesystem.c.
*/
module Initial {
  import opened CStrings
  import opened Names
  import opened Disk

  /** Length, first letter, and no character that matters to the name printer. */
  predicate Word(n: cstring, len: nat, first: char) {
    |n| == len && len > 0 && n[0] == first && ' ' !in n && '/' !in n
  }

  function BinText(): (n: cstring) ensures Word(n, 3, 'B') { "BIN" }
  function HomeText(): (n: cstring) ensures Word(n, 4, 'H') { "HOME" }
  function EtcText(): (n: cstring) ensures Word(n, 3, 'E') { "ETC" }
  function ReadmeText(): (n: cstring) ensures Word(n, 6, 'R') { "README" }
  function TxtText(): (n: cstring) ensures Word(n, 3, 'T') { "TXT" }
  function KernelText(): (n: cstring) ensures Word(n, 6, 'K') { "KERNEL" }
  function LicenseText(): (n: cstring) ensures Word(n, 7, 'L') { "LICENSE" }
  function ShellText(): (n: cstring) ensures Word(n, 5, 'S') { "SHELL" }
  function ExeText(): (n: cstring) ensures Word(n, 3, 'E') { "EXE" }
  function InitText(): (n: cstring) ensures Word(n, 4, 'I') { "INIT" }
  function UserText(): (n: cstring) ensures Word(n, 4, 'U') { "USER" }
  function GuestText(): (n: cstring) ensures Word(n, 5, 'G') { "GUEST" }
  function PasswdText(): (n: cstring) ensures Word(n, 6, 'P') { "PASSWD" }
  function HostsText(): (n: cstring) ensures Word(n, 5, 'H') { "HOSTS" }

  /** An entry of the initial tables; its name field is the base and the extension, each padded with spaces. */
  function BootEntry(base: cstring, ext: cstring, attributes: bv8, size: nat, cluster: Cluster): Entry {
    Entry(Pad(base, 8) + Pad(ext, 3), attributes, size, cluster, 0, 0)
  }

  function Dot(self: Cluster): Entry { BootEntry(".", "", ATTR_DIRECTORY, 0, self) }
  function DotDot(parent: Cluster): Entry { BootEntry("..", "", ATTR_DIRECTORY, 0, parent) }
  function Bin(): Entry { BootEntry(BinText(), "", ATTR_DIRECTORY, 0, 1) }
  function Home(): Entry { BootEntry(HomeText(), "", ATTR_DIRECTORY, 0, 2) }
  function Etc(): Entry { BootEntry(EtcText(), "", ATTR_DIRECTORY, 0, 3) }
  function Readme(): Entry { BootEntry(ReadmeText(), TxtText(), 0, 256, 4) }
  function Kernel(): Entry { BootEntry(KernelText(), BinText(), 0, 1024, 5) }
  function License(): Entry { BootEntry(LicenseText(), TxtText(), 0, 512, 6) }
  function Shell(): Entry { BootEntry(ShellText(), ExeText(), 0, 512, 7) }
  function Init(): Entry { BootEntry(InitText(), ExeText(), 0, 256, 8) }
  function User(): Entry { BootEntry(UserText(), "", ATTR_DIRECTORY, 0, 9) }
  function Guest(): Entry { BootEntry(GuestText(), "", ATTR_DIRECTORY, 0, 10) }
  function Passwd(): Entry { BootEntry(PasswdText(), TxtText(), 0, 128, 11) }
  function Hosts(): Entry { BootEntry(HostsText(), TxtText(), 0, 64, 12) }

  function BootRoot(): seq<Entry> {
    [Dot(0), DotDot(0), Bin(), Home(), Etc(), Readme(), Kernel(), License()]
  }

  function BootBin(): seq<Entry> {
    [Dot(1), DotDot(0), Shell(), Init()]
  }

  function BootHome(): seq<Entry> {
    [Dot(2), DotDot(0), User(), Guest()]
  }

  function BootEtc(): seq<Entry> {
    [Dot(3), DotDot(0), Passwd(), Hosts()]
  }

  function BootTable(): Table {
    [Dir(BootRoot()), Dir(BootBin()), Dir(BootHome()), Dir(BootEtc())] + seq(12, _ => Empty)
  }

  /** The state fs_init sets up, whatever the simulated contents are. */
  function BootState(content: Contents): FS {
    FS(BootTable(), content, 0, "/")
  }

  function BootEntries(c: Cluster): seq<Entry> {
    if c == 0 then BootRoot()
    else if c == 1 then BootBin()
    else if c == 2 then BootHome()
    else if c == 3 then BootEtc()
    else []
  }

  lemma BootTableIs(c: Cluster)
    ensures Entries(BootTable(), c) == BootEntries(c) && (BootTable()[c].Dir? <==> c < 4)
  {
  }
}
