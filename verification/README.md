# SinisterOS: model and proofs

This Dafny project models the part of the SinisterOS kernel that lives entirely
in memory, and proves what it is meant to guarantee:

* the in-memory file system (`fs/filesystem.c`): sixteen cluster slots that each
  may hold a directory array, a current directory and a current path, the 8.3
  name field, the path resolver, and cd, touch, rm in its five forms, mkdir, cp
  and mv;
* the text console (`kernel/screen.c`): 4000 bytes of video memory with wrap,
  newline and in-place scroll, and a cursor split over two VGA registers;
* the keyboard line editor and the integer printer (`drivers/keyboard.c`);
* the overflow-avoiding percentage and the counters (`kernel/system_stats.c`).

## How it is organised

| part | modules |
|---|---|
| C strings and the 8.3 field | `CStrings`, `Names` |
| path text | `Paths` |
| file system: commands as functions, and the code on arrays | `Disk`, `FileSystem` |
| directory tree: definition, removing, adding, moving | `Tree`, `Shrink`, `Grow`, `Relocate` |
| what each command keeps | `Navigate`, `Deleting`, `Creating`, `Moving`, `Stock` |
| boot state, whole runs, failing inputs | `Initial`, `Boot`, `Runs`, `Witnesses` |
| console | `Terminal` (unbounded grid), `Console` (video memory) |
| keyboard | `LineEditor` (fold over scancodes), `Keyboard` (handler), `Decimal` |
| statistics | `Percentage`, `SystemStats` |

Code that changes things in place is a class or a method with loops over arrays
(`FileSystem`, `Console`, `Keyboard`, `SystemStats`, the string and name
routines). Each of its methods is proved equal to a function on values, and the
theorems are about those functions. So a theorem about `Disk.MoveFile` is a
theorem about what `FileSystem.MoveEntry` does to its arrays.

The invariant of the file system is `Tree.Inv`: the reachable part of the
cluster table is a tree with correct dot entries (`Structure`), printed names in
a directory are unique, not empty, and without slashes for subdirectories
(`NamesOk`), and the current path spells a way from the root to the current
directory (`Located`). `Navigate.Keeps` adds that unreachable directories are
neither changed nor reached again.

## What the proofs found about the code

* `find_free_cluster` looks at the directory table only, and files never mark
  their slot there. Whether a creating command keeps the tree depends on that
  slot alone: `Creating.TouchStructure`, `CopyStructure` and `MkdirStructure`
  give the exact condition. Whether it empties or overwrites another file is
  `Stock.TouchContents` and `Stock.CopyContents`. Right after boot the slot is
  that of README.TXT (`Boot.BootCreates`): a touch empties that file, a mkdir
  breaks the tree.
* A name is looked up as it is given but stored cut to 8.3, so a command can add
  an entry that prints like one already there; exactly when is in
  `Creating.TouchKeeps`, `MkdirKeeps`, `CopyKeeps` and `Relocate.MoveNamesExactly`.
  touch of LONGNAME1 twice does it (`Witnesses.BootTouchedTwice`), and mv of a file
  to "/" leaves an entry with an empty name (`Witnesses.BootDestinations`).
* `mkdir` looks its parent up with cd, under a text that always has a slash. No
  directory's printed name has one, so from a well-formed state the parent is
  accepted exactly when its text is "/" (`Creating.MkdirInRoot`): mkdir only ever
  creates in the root, and inside /BIN it refuses every plain name
  (`Witnesses.InBinRefuses`).
* The parent text of a destination ends in a slash, and `resolve_path` answers with
  the directory that holds the last component. So cp and mv to /BIN/R put R into the
  root (`Navigate.DestinationIs`, `DestinationNamed`, `Witnesses.BootDestinations`).
* `mv` looks its source up a second time by the text after the last slash. With a
  trailing slash that text is empty and nothing is removed, so the entry is doubled,
  except when the new entry has an empty name beside the old one and is itself
  removed (`Stock.MvDoubles`; `Witnesses.BootDoubles`, `BootNotDoubled`).
* `mv` of a directory into its own subtree keeps the structure but loses that
  subtree, exactly then (`Moving.MvLosesNothing`). The current path goes stale
  exactly when the moved directory is the current one or above it and does not keep
  its place and name (`Moving.MvKeepsPath`). mv /BIN ./X from inside BIN does both
  (`Witnesses.InBinLoses`).
* A comment in `resolve_path` takes its last return for the case of a trailing
  slash. In the code a path with a trailing slash still resolves to the entry of
  its last component (`Tree.WalkMeans`, `Navigate.SlashInsensitive`); only a path
  without components reaches that return.
* Printing a stored name and storing it again need not be stable
  (`Names.ReprintIdempotent`): one dot in the input is enough, two are not.
* `kprint_backspace` from the first cell leaves the cursor registers at 65535;
  the line editor never calls it there (`LineEditor.KeyInStep`).
* Typing past a full command buffer is echoed but not stored, so the screen and
  the buffer disagree until the next Enter, exactly then (`LineEditor.RunEcho`,
  `StartOverfull`).
* `int_to_ascii` turns every negative number into a lone minus sign.

## Model

| member | source | states |
|---|---|---|
| CStrings.StrLength | drivers/keyboard.c:204-210 | the loop stops at the first terminator of the buffer |
| CStrings.StrCopy | drivers/keyboard.c:215-223 | the destination holds the source string, terminated, whatever it held before |
| CStrings.StrEqualNocase | fs/filesystem.c:201-217 | decides equality up to the case of ASCII letters |
| CStrings.SameEquivalence | fs/filesystem.c:201-217 | that is an equivalence relation |
| CStrings.HasExtension | fs/filesystem.c:480-507 | decides the case-insensitive suffix relation; comparing in lower case gives the same answer as the upper-case comparison of lookups |
| Names.ParseFilename | fs/filesystem.c:352-402 | the 12-byte buffer is the base cut or padded to 8 and the part after the last dot cut or padded to 3, terminated |
| Names.FillField | fs/filesystem.c:366-398 | one copy-and-pad pair of loops writes the padded text to its range of the field and nothing outside it |
| Names.FormatFilename | fs/filesystem.c:106-132 | the printed name: base up to its first space, then dot and extension only if the rest of the base is blank and the extension is not |
| Names.Format | fs/filesystem.c:106-132 | a printed name has at most 12 characters and no space, for every field |
| Names.PrintsBack | fs/filesystem.c:106-132 | for every name: it prints back unchanged if and only if it has no space, a base of at most 8, and no dot or 1 to 3 characters after the last one |
| Names.RoundTrip | fs/filesystem.c:352-402 | every 8.3 name with a base of 1 to 8 and an optional extension of 1 to 3 prints back unchanged |
| Names.ReprintIdempotent | fs/filesystem.c:106-132 | printing a stored name and storing it again is stable after one pass if and only if the name's extension is printed, or what is printed of its base has no dot or 1 to 3 characters after its last dot |
| Names.OneDotIdempotent | fs/filesystem.c:352-402 | it is stable for every input with at most one dot |
| Names.TwoDotsNotIdempotent | fs/filesystem.c:352-402 | a family of inputs with two dots whose printed name is not stable |
| Names.FieldRoundTrip | fs/filesystem.c:106-132 | parsing what is printed for a field gives the field back exactly for the canonical fields, also when the base has dots and an extension follows |
| Names.NoNewCharacter | fs/filesystem.c:352-402 | storing and printing a name adds no character but spaces and the dot; no slash in particular |
| Paths.Components | fs/filesystem.c:829-845 | the components are never empty and have no slash |
| Paths.SlashSeparates | fs/filesystem.c:829-845 | a slash splits the component list of any text in two |
| Paths.SlashesDoNotMatter | fs/filesystem.c:837-845 | doubling a slash anywhere or adding one at the end changes neither the components nor whether the path is absolute |
| Paths.ParentAndName | fs/filesystem.c:739-793 | the two helpers split a path at its last slash and together give it back; without a slash the parent is the root |
| Paths.LastComponent | fs/filesystem.c:739-793 | a non-empty file name is the last component, and the parent path has exactly the components before it |
| Paths.FindLastSlash | fs/filesystem.c:744-748 | the backward scan finds the last slash, or -1 |
| Paths.GetParentPath | fs/filesystem.c:739-771 | the buffer holds the parent text, slash included; a slash alone when there is none |
| Paths.GetFilename | fs/filesystem.c:774-793 | the buffer holds the text after the last slash |
| Paths.ExtendSpells | fs/filesystem.c:282-296 | from a path that spells some components, with or without a trailing slash, the appended text spells those and the new name |
| Paths.ShortenSpells | fs/filesystem.c:238-257 | cutting after the last inner slash spells the components without the last, and the root stays the root |
| Paths.ExtendInPlace | fs/filesystem.c:282-296 | the 256-byte buffer holds the extended path, cut at 255 characters, terminated |
| Paths.ShortenInPlace | fs/filesystem.c:238-257 | the buffer holds the shortened path |
| Paths.ReadComponent | fs/filesystem.c:829-845 | one turn of the index loop takes exactly one component, possibly empty, off the rest, and the end of the text is reached exactly when no component is left |
| Disk.Find | fs/filesystem.c:273-304 | a lookup gives the first entry that matches ignoring case |
| Disk.FreeCluster | fs/filesystem.c:405-412 | the lowest slot from 4 on without a directory: never a materialised directory, and -1 only when there is none |
| Tree.ChainDistinct | fs/filesystem.c:1020-1048 | in a well-formed tree the clusters on the way down are all different |
| Tree.ChainUnique | fs/filesystem.c:1020-1048 | there is only one way down to each directory |
| Tree.ChainShort | fs/filesystem.c:54-57 | so it is at most 16 clusters long, by pigeonhole |
| Tree.PathAgrees | fs/filesystem.c:220-308 | in a well-formed state entering the components of the current path from cluster 0 ends at the current cluster, and the path has at most 195 characters |
| Tree.WalkMeans | fs/filesystem.c:829-897 | the resolver's walk answers with the directory that the names before the last lead to, one directory after the other, and the first entry in it that matches the last; it fails exactly when there is no such directory or entry |
| Shrink.ShrinkStructure | fs/filesystem.c:611-621 | taking a child entry out and freeing clusters keeps the tree |
| Shrink.ShrinkNames | fs/filesystem.c:532-538 | and keeps the names unique |
| Shrink.ShrinkLocated | fs/filesystem.c:611-621 | and keeps the way to the current directory when it is taken from that directory |
| Grow.GrowReach | fs/filesystem.c:1016-1048 | adding an entry keeps everything reachable and reaches at most the new directory |
| Grow.GrowStructure | fs/filesystem.c:405-412 | adding an entry that names an unused slot keeps the tree if and only if the slot is fresh: named by no live entry for a directory, by no live directory entry for a file |
| Grow.GrowNames | fs/filesystem.c:969-1018 | adding an entry whose printed name is not there yet keeps the names unique |
| Grow.GrowNamesExactly | fs/filesystem.c:969-1018 | and only such an entry does |
| Relocate.MoveReach | fs/filesystem.c:1216-1257 | a move makes nothing new reachable |
| Relocate.MoveStructure | fs/filesystem.c:1216-1257 | the copy, the change of "..", the append and the removal together keep the tree, also within one directory and into the moved directory itself |
| Relocate.MoveNames | fs/filesystem.c:1202-1257 | and keep the names unique when nothing but the moved entry prints like it at the destination |
| Relocate.MoveNamesExactly | fs/filesystem.c:1202-1257 | and only then, unless the destination is lost with a directory moved into itself |
| Relocate.MoveLocated | fs/filesystem.c:1216-1257 | and keep the path when the moved directory is not on it, or stays in its directory under the same name |
| Relocate.MoveLosesNothing | fs/filesystem.c:1216-1257 | the reachable directories stay the same if and only if no directory is moved into its own subtree |
| Navigate.CdMeans | fs/filesystem.c:220-308 | cd succeeds exactly for "/", "." and names that look up a directory; it goes to the cluster of that entry, and the components of the path become none, those without the last, or those with the printed name added |
| Navigate.CdKeeps | fs/filesystem.c:220-308 | cd with any argument keeps tree, names, and the agreement of path and cluster; the truncation at 255 characters is never reached |
| Navigate.SlashInsensitive | fs/filesystem.c:803-891 | repeating a slash or adding one at the end never changes what a path resolves to |
| Navigate.ResolveMeans | fs/filesystem.c:796-898 | in any state a path with components resolves if and only if all but the last lead to a directory, from the root or the current one, that has an entry of the last name; it gives the first such entry, and the starting directory when there are no components |
| Navigate.EntryResolves | fs/filesystem.c:829-867 | a resolved entry lies in a reachable, materialised directory and is the first match there of the last component, trailing slash or not |
| Navigate.EntryByFileName | fs/filesystem.c:1174-1184 | without a trailing slash it is also the first match of the text after the last slash, which mv looks up again |
| Navigate.ParentResolves | fs/filesystem.c:1085-1092 | a destination that resolves is a reachable, materialised directory |
| Navigate.DestinationIs | fs/filesystem.c:1085-1092 | it is the directory that the components of the parent text before the last lead to: the one that holds the last, not the one it names; the root when there are none |
| Navigate.DestinationNamed | fs/filesystem.c:1085-1092 | it is the directory the parent text names if and only if that text's last component is ".", or ".." at the root |
| Deleting.InvCwdSafe | fs/filesystem.c:510-640 | in a well-formed state only "." and ".." entries of the current directory name it and no file in a subdirectory does, so no delete frees the directory being edited |
| Deleting.RmKeeps | fs/filesystem.c:510-555 | in a well-formed state rm of any name is safe, keeps the invariant and leaves unreachable directories alone |
| Deleting.RmSucceeds | fs/filesystem.c:510-555 | rm succeeds if and only if the first entry of that name, ignoring case, is there and is no directory; otherwise it changes nothing |
| Deleting.RmMeans | fs/filesystem.c:523-543 | in a well-formed state a successful rm takes out that entry alone, empties its content, and changes no other directory and no other content |
| Deleting.RmDirTable | fs/filesystem.c:564-640 | a successful rm of a directory, forced or not, takes out exactly that child entry and frees exactly its slot |
| Deleting.RmDirSucceeds | fs/filesystem.c:564-640 | in a well-formed state it succeeds if and only if the name is no dot name, leads to a directory, and force is given or that directory has at most its two dot entries; otherwise it changes nothing |
| Deleting.RmDirContents | fs/filesystem.c:590-609 | there it empties the contents of exactly the files inside, and no other |
| Deleting.RmDirKeeps | fs/filesystem.c:564-640 | it keeps the invariant; directories orphaned by force stay unreachable and untouched |
| Deleting.DownIsFilter | fs/filesystem.c:650-676 | the backward loop with inner shifting leaves the order-preserving filter of the directory and counts what it removes; an entry goes if and only if it is no directory and, for an ending, its printed name ends in it ignoring case |
| Deleting.DownFrees | fs/filesystem.c:656-665 | another slot, and any content, changes exactly when a deleted file names it, and is then freed and emptied |
| Deleting.BulkIsFilter | fs/filesystem.c:643-736 | in a well-formed state either bulk delete is safe, filters the current directory by that condition, returns the number removed, empties exactly the contents of what it removed, changes no other directory and keeps the invariant |
| Creating.NewEntryPrints | fs/filesystem.c:454-463 | an entry prints as its name stored and printed again, and as the name itself when that fits |
| Creating.TouchSucceeds | fs/filesystem.c:415-452 | in any state touch succeeds if and only if the name is there, or the directory has less than 20 entries and one of the slots 4 to 15 holds no directory; otherwise it changes nothing |
| Creating.TouchUpdates | fs/filesystem.c:426-437 | for a name that is there the first such entry gets the fixed time and date and all else is kept |
| Creating.TouchAdds | fs/filesystem.c:440-470 | for another name an empty file of that name is added at the end under the lowest free slot, whose content is emptied, and all else is kept |
| Creating.TouchOldKeeps | fs/filesystem.c:429-437 | touching an existing entry keeps the invariant |
| Creating.TouchKeeps | fs/filesystem.c:415-477 | touch leaves a well-formed state if and only if it creates nothing, or the name is new once stored and no live directory entry names the allocated slot; the names stay unique if and only if the stored name is new |
| Creating.TouchStructure | fs/filesystem.c:440-470 | a creating touch keeps the tree if and only if no live directory entry names the allocated slot |
| Creating.ParentIsRoot | fs/filesystem.c:934-956 | the parent text is "/" if and only if the only slash of the argument is its first character, or it has none and the current directory is the root |
| Creating.MkdirInRoot | fs/filesystem.c:934-967 | the parent is accepted if and only if its text is "/", and then it is the root |
| Creating.MkdirSucceeds | fs/filesystem.c:923-1059 | mkdir succeeds if and only if the argument is not empty, the parent text is "/", the last name is free in the root and a slot is left; otherwise it changes nothing |
| Creating.MkdirTable | fs/filesystem.c:964-1058 | a successful mkdir adds to the root one directory entry that prints as the name once stored, with the lowest free slot, and the two dot entries to that slot, and restores directory and path |
| Creating.MkdirKeeps | fs/filesystem.c:923-1059 | mkdir leaves a well-formed state if and only if it creates nothing, or the name is new once stored and no live entry names the slot; the names stay unique if and only if the stored name is new |
| Creating.MkdirStructure | fs/filesystem.c:988-1048 | it keeps the tree if and only if no live entry, file or directory, names the allocated slot |
| Creating.CpSucceeds | fs/filesystem.c:1062-1131 | in any state cp succeeds if and only if the source path leads to an entry that is no directory, the destination's parent text leads somewhere, no entry there has the last name ignoring case, and a slot is left; otherwise it changes nothing |
| Creating.CopyTable | fs/filesystem.c:1121-1153 | a successful cp adds one file entry with the source's attributes and size, under the lowest free slot and the last name of the destination once stored, to the directory the destination's parent resolves to |
| Creating.CopyKeeps | fs/filesystem.c:1062-1166 | cp leaves a well-formed state if and only if it creates nothing, or the name is new at the destination once stored and no live directory entry names the slot; the names stay unique if and only if the stored name is new |
| Creating.CopyStructure | fs/filesystem.c:1121-1153 | it keeps the tree if and only if no live directory entry names the allocated slot |
| Moving.MvSucceeds | fs/filesystem.c:1169-1214 | in any state mv succeeds if and only if the source path leads to an entry, the destination's parent text leads somewhere, and no entry there has the last name ignoring case; otherwise it changes nothing |
| Moving.MvTable | fs/filesystem.c:1216-1257 | what mv makes of the table for every source: precisely the entry the path resolved to is removed, dot entries included; with a trailing slash none is, or the new one when it has an empty name beside the old one |
| Moving.MoveTable | fs/filesystem.c:1202-1257 | for a child without trailing slash that is a move, also within one directory, with a moved directory's ".." pointed at the destination |
| Moving.MvStructure | fs/filesystem.c:1169-1266 | under a name that is new once stored mv keeps the tree if and only if the source text ends in a name that is no dot name, or in a slash after the name of a file |
| Moving.MvKeeps | fs/filesystem.c:1169-1266 | mv of anything but a dot entry leaves a well-formed state if and only if it creates nothing, or the printed name fits its destination and the path of the current directory survives; with a trailing slash, if and only if nothing is doubled, or a file is, under a new name |
| Moving.MvLosesNothing | fs/filesystem.c:1216-1257 | mv keeps every directory reachable if and only if the source has a trailing slash, or no directory is put inside itself |
| Moving.MvKeepsPath | fs/filesystem.c:1216-1257 | the path still leads to the current directory if and only if the source has a trailing slash, or what is moved is neither that directory nor above it, or stays where it is under the same printed name; for names that fit and names that do not |
| Stock.MvConserves | fs/filesystem.c:1169-1266 | a failed mv changes nothing; one that succeeds keeps all contents, and, unless it is of a dot name, the multiset of (attributes, size, cluster) over all non-dot entries but for the one it doubles |
| Stock.MvCounts | fs/filesystem.c:1234-1257 | in any state the number of entries grows by one if and only if the second lookup finds nothing after the append, and is kept otherwise |
| Stock.MvDoubles | fs/filesystem.c:1234-1257 | in a well-formed state that is if and only if the source text ends in a slash and the entry is not added beside itself under a name that prints as nothing; for all sources, dot names included, and all destinations |
| Stock.TouchThenRm | fs/filesystem.c:440-543 | touch of a new name that fits and then rm of it restore the cluster table, directory, path and every other content |
| Stock.CopyContents | fs/filesystem.c:1133-1153 | cp gives the new entry the source's content; the other live files keep theirs if and only if none of them had the allocated slot with another content |
| Stock.TouchContents | fs/filesystem.c:447-470 | a creating touch leaves the content of every live file alone if and only if none of them has the allocated slot with text in it |
| FileSystem.ShiftDown | fs/filesystem.c:533-535 | the in-place shift removes one entry and keeps the order of the others |
| FileSystem.FileSystem.constructor | fs/filesystem.c:60-96 | the given directories in the first slots, empty slots after them, at the root |
| FileSystem.FileSystem.AppendEntry | fs/filesystem.c:468-470 | one more entry at the end of one directory, nothing else changed |
| FileSystem.FileSystem.RemoveEntry | fs/filesystem.c:532-538 | the shifting loop takes one entry out of one directory |
| FileSystem.FileSystem.FindEntry | fs/filesystem.c:273-277 | the lookup loop finds the first matching entry |
| FileSystem.FileSystem.FindFreeCluster | fs/filesystem.c:405-412 | the scan over pointers and sizes finds the lowest free slot |
| FileSystem.FileSystem.ChangeDirectory | fs/filesystem.c:220-308 | on the arrays and the path buffer, cd is `Disk.ChangeDir` in every branch |
| FileSystem.FileSystem.TouchFile | fs/filesystem.c:415-477 | touch is `Disk.Touch`: update, full directory, no slot, or creation |
| FileSystem.FileSystem.DeleteFile | fs/filesystem.c:510-555 | rm is `Disk.DeleteFile` |
| FileSystem.FileSystem.DeleteDirectory | fs/filesystem.c:564-640 | rm of a directory is `Disk.DeleteDirectory`, with and without force |
| FileSystem.FileSystem.ReleaseFilesOf | fs/filesystem.c:596-608 | the forced loop releases the files from the third entry on and leaves subdirectories alone |
| FileSystem.FileSystem.DeleteFiles | fs/filesystem.c:643-736 | both bulk deletes are the backward fold `Disk.DeleteFiles` and return its count |
| FileSystem.FileSystem.ResolvePath | fs/filesystem.c:796-898 | the index-juggling loop gives exactly what the recursive walk over the non-empty components gives, terminates, and leaves directory and path as they were on every exit |
| FileSystem.FileSystem.WalkComponents | fs/filesystem.c:829-891 | its loop, from any position in the text |
| FileSystem.FileSystem.CreateDirectory | fs/filesystem.c:923-1059 | mkdir is `Disk.MakeDirectory`, including the save and restore of directory and path |
| FileSystem.FileSystem.CopyFile | fs/filesystem.c:1062-1166 | cp is `Disk.CopyFile` |
| FileSystem.FileSystem.MoveEntry | fs/filesystem.c:1169-1266 | mv is `Disk.MoveFile`, including its second lookup |
| Boot.BootInv | fs/filesystem.c:60-103 | the state fs_init sets up is well-formed |
| Boot.BootSlot | fs/filesystem.c:15-18 | the first slot the allocator returns is that of README.TXT, which no directory entry names |
| Boot.BootCreates | fs/filesystem.c:405-477 | so right after boot a creating touch empties README.TXT and a creating mkdir breaks the tree |
| Boot.FsInit | fs/filesystem.c:82-103 | the array code builds exactly that state |
| Runs.StepExactly | fs/filesystem.c:220-1266 | one command leads from a well-formed state to a well-formed one if and only if it is admissible, for every command but touch in a directory without an array and mv of a dot entry; it never touches an unreachable directory |
| Runs.StepKeeps | fs/filesystem.c:220-1266 | every admissible command keeps the invariant and the unreachable directories |
| Runs.RunKeeps | fs/filesystem.c:220-1266 | so does every run of commands, from any well-formed state |
| Runs.RunFromBoot | fs/filesystem.c:82-103 | every run from boot ends well-formed, with a path of at most 195 characters that leads to the current cluster |
| Witnesses.MkdirAfterRm | fs/filesystem.c:923-1059 | such runs can make directories: once README.TXT is removed after boot, any free valid name can be made, and it gets slot 4 |
| Witnesses.SlashDoubles | fs/filesystem.c:1234-1257 | in every well-formed state mv of "/w/" to a new name in the root doubles the entry w |
| Witnesses.SlashToSlash | fs/filesystem.c:1234-1257 | mv of "/w/" to "/" does not |
| Witnesses.EmptyNameLeft | fs/filesystem.c:1190-1236 | mv of a file "/w" to "/" leaves an entry in the root that prints as nothing |
| Witnesses.IntoItself | fs/filesystem.c:1216-1257 | from inside a directory "/w", mv of it to "./n" makes it unreachable and leaves the current path leading nowhere |
| Witnesses.LandsInRoot | fs/filesystem.c:1085-1092 | a destination "/w/n" is in the root and not in w |
| Witnesses.OntoAnother | fs/filesystem.c:1202-1213 | in any state mv and cp to "/v" are refused when the root has an entry v, whatever the source |
| Witnesses.TouchedTwice | fs/filesystem.c:415-477 | touch of a nine-character name without dot or space, twice, makes two entries that print alike |
| Witnesses.BootDoubles | fs/filesystem.c:15-18 | at boot, mv /BIN/ /X doubles BIN |
| Witnesses.BootNotDoubled | fs/filesystem.c:15-18 | and mv /BIN/ / does not |
| Witnesses.BootDestinations | fs/filesystem.c:15-18 | at boot, the destination /BIN/R is in the root, and mv /README.TXT / leaves an empty name |
| Witnesses.BootRefused | fs/filesystem.c:1202-1213 | at boot, mv and cp of /README.TXT to /KERNEL.BIN are refused and change nothing |
| Witnesses.BootTextsGo | fs/filesystem.c:680-736 | at boot, deleting the files that end in .TXT removes README.TXT and LICENSE.TXT and leaves KERNEL.BIN and the directories |
| Witnesses.BootRmBin | fs/filesystem.c:564-640 | at boot, rm of BIN is refused without force; with it, the contents of SHELL.EXE and INIT.EXE are emptied and no other |
| Witnesses.InBinLoses | fs/filesystem.c:20-25 | after cd BIN, mv /BIN ./X loses BIN and the current path |
| Witnesses.InBinRefuses | fs/filesystem.c:963-967 | there mkdir of any name without a slash is refused |
| Witnesses.BootTouchedTwice | fs/filesystem.c:415-477 | at boot, touch LONGNAME1 twice makes two entries that print as LONGNAME |
| Terminal.PutMeans | kernel/screen.c:95-99 | a printable character fills the cell at the cursor, which goes one on; the screen moves down a row exactly from its last cell |
| Terminal.NewlineMeans | kernel/screen.c:89-91 | a newline writes nothing and goes to column 0 of the next row; the screen moves down a row exactly when the cursor was in its last row |
| Terminal.BackspaceMeans | kernel/screen.c:92-94 | a printed backspace blanks the cell at the cursor, which stays |
| Terminal.EraseMeans | kernel/screen.c:47-53 | an erase goes one cell back and blanks that alone |
| Terminal.ClearedMeans | kernel/screen.c:58-68 | clearing leaves only blanks and the cursor at the start |
| Terminal.PutsText | kernel/screen.c:73-122 | printable text fills consecutive grid cells across row ends and scrolls, and changes nothing else on the unbounded plane |
| Terminal.PutThenErase | kernel/screen.c:47-53 | a character and an erase restore the plane and the position |
| Console.OffsetInverse | kernel/screen.c:150-166 | row and column are recovered from an offset |
| Console.OffsetBack | kernel/screen.c:150-166 | and an even offset from its row and column |
| Console.RegistersInverse | kernel/screen.c:127-145 | what the two cursor registers give back is what was set if and only if the offset is even and fits 16 bits after halving |
| Console.PrintedAtCursor | kernel/screen.c:16-35 | from the cursor on, printing through rows and columns is the naive terminal's printing: the error mark is never reached |
| Console.PrintedCharMeans | kernel/screen.c:73-122 | print_char at a cell of the screen, or at the cursor when a coordinate is negative, writes that cell alone and leaves the cursor after it; attribute 0 is white on black |
| Console.PrintedCharMarks | kernel/screen.c:78-82 | at a row or column past the edge it only writes a red mark into the last cell and returns the offset asked for |
| Console.PrintedAtPlace | kernel/screen.c:16-35 | a message for a cell of the screen is what the naive terminal prints with its cursor there |
| Console.ShowsScrolled | kernel/screen.c:102-116 | bytes shifted by one row show the grid's window moved down one row |
| Console.Console.ScrollUp | kernel/screen.c:102-116 | the ascending in-place row copy is a true shift, with a blank last row |
| Console.Console.GetCursorOffset | kernel/screen.c:127-134 | reads back twice the cursor cell |
| Console.Console.SetCursorOffset | kernel/screen.c:139-145 | splits the cell number over the two registers, also for a negative offset |
| Console.Console.PrintChar | kernel/screen.c:73-122 | after it video memory is the 25-row window of the grid the naive terminal writes; out-of-range coordinates only mark the last cell |
| Console.Console.KprintAt | kernel/screen.c:16-35 | the same for a whole message, at the cursor or at a given place |
| Console.Console.Kprint | kernel/screen.c:40-42 | the screen is the last 25 rows of the unbounded grid, the cursor its position in that window |
| Console.Console.KprintBackspace | kernel/screen.c:47-53 | the terminal's erase if and only if the cursor is past the first cell; otherwise the registers end at 65535 |
| Console.Console.ClearScreen | kernel/screen.c:58-68 | from any video memory and registers, a blank grid with the cursor at its start |
| LineEditor.TypesText | drivers/keyboard.c:144-181 | no key types a newline, a backspace or a terminator |
| LineEditor.LetterKey | drivers/keyboard.c:144-155 | a letter key appends the key's letter, a capital if and only if exactly one of caps lock and shift is on |
| LineEditor.LetterRows | drivers/keyboard.c:805-867 | the three letter rows type qwertyuiop, asdfghjkl and zxcvbnm into the buffer, or their capitals when exactly one of caps lock and shift is on |
| LineEditor.SymbolRows | drivers/keyboard.c:156-181 | the digit row and the other keys type their characters, or under shift their second ones, whatever caps lock is |
| LineEditor.OtherKeys | drivers/keyboard.c:865-867 | a pressed key that is not handled otherwise does nothing at all if and only if it is none of these |
| LineEditor.EnterPrompts | drivers/keyboard.c:124-135 | Enter goes to the next row, executes a line that is not empty, and writes the prompt with the cursor just after it; the buffer is empty and shift and caps lock are kept |
| LineEditor.KeyInStep | drivers/keyboard.c:101-194 | every scancode keeps the buffer at 255 at most and the cursor cell at least two past its length, so a backspace never leaves the screen |
| LineEditor.RunMeans | drivers/keyboard.c:101-194 | for every scancode sequence: shift is the last shift event, caps the parity of its presses, and the executed lines and the buffer are folds of the typed events between Enters |
| LineEditor.KeyEcho | drivers/keyboard.c:124-192 | after one key the grid from the prompt spells the buffer if and only if it was Enter, or it did before and nothing was typed past a full buffer |
| LineEditor.RunEcho | drivers/keyboard.c:124-192 | over whole runs the echo agrees if and only if nothing overflowed since the last Enter |
| LineEditor.TypeThenBackspace | drivers/keyboard.c:136-191 | a character key and a backspace always restore grid and position, and the buffer if and only if it had room |
| LineEditor.PressesEcho | drivers/keyboard.c:143-192 | the same character key pressed n times at the prompt: the echo agrees with the buffer if and only if n is at most 255 |
| LineEditor.StartOverfull | drivers/keyboard.c:143-192 | so 256 presses of the key A at the first prompt break it |
| LineEditor.StartAgrees | kernel/kernel.c:34-34 | the first prompt starts such a run |
| Keyboard.Keyboard.KeyboardHandler | drivers/keyboard.c:96-199 | the handler, echoing to the console, is one step of the line editor; nothing happens without the status bit |
| Keyboard.Keyboard.PressEnter | drivers/keyboard.c:124-135 | newline, execution of a non-empty line, prompt, empty buffer |
| Keyboard.Keyboard.PressBackspace | drivers/keyboard.c:136-142 | drops the last character and erases its cell, or nothing |
| Keyboard.Keyboard.PressCharacter | drivers/keyboard.c:143-192 | echoes the modified character and stores it while there is room |
| Keyboard.StartShell | kernel/kernel.c:10-34 | clearing, banner and prompt leave an agreeing line editor, from any video memory |
| Decimal.ReverseInPlace | drivers/keyboard.c:795-801 | the two-pointer loop reverses the first n characters and touches no other |
| Decimal.WriteDigits | drivers/keyboard.c:782-786 | the digit loop writes at most ten digits, lowest first, whose value is the number |
| Decimal.IntToAscii | drivers/keyboard.c:771-802 | for every 32-bit number that is not negative the result is its decimal numeral: right value, no leading zero, at most 10 digits; for a negative one a lone minus sign |
| Decimal.NumeralUnique | drivers/keyboard.c:771-802 | and there is only one such numeral |
| Decimal.ClockReadsBack | drivers/keyboard.c:740-755 | the padded hh:mm:ss text reads back as exactly the uptime, with at least two digits for the hours, two for minutes and seconds, and those below 60 |
| Decimal.PrintClock | drivers/keyboard.c:740-755 | that text is what the console shows |
| Percentage.NarrowScales | kernel/system_stats.c:174-178 | repeated halving is division of both numbers by one power of two, and leaves a divisor of at least 2^31 if it did anything |
| Percentage.NarrowBoth | kernel/system_stats.c:174-178 | the loop terminates with those values |
| Percentage.TrimScales | kernel/system_stats.c:174-189 | after both reductions: one common scale, a numerator whose hundredfold fits 31 bits, and a divisor of at least 83886 if anything was dropped |
| Percentage.SafePercentage | kernel/system_stats.c:170-195 | the 64-bit code computes `Percent`, wrap-around of the product included |
| Percentage.Accurate | kernel/system_stats.c:170-195 | for all 64-bit a <= b, b > 0: no overflow, no zero divisor, at most 100, within 1 of the exact whole percentage, and exact when neither reduction is taken |
| Percentage.NotAlwaysExact | kernel/system_stats.c:184-194 | the bound is met: numbers for which the result is one too small |
| Percentage.PercentSmall | kernel/system_stats.c:170-195 | for any numbers at all the result is a 32-bit number |
| SystemStats.SystemStats.constructor | kernel/system_stats.c:141-160 | the initial values |
| SystemStats.SystemStats.Update | kernel/system_stats.c:198-235 | one call is the step `Updated`, for any reading of the time-stamp counter |
| SystemStats.SystemStats.RecordIdle | kernel/system_stats.c:238-245 | the idle ticks grow by the wrapped difference of the readings |
| SystemStats.UsageIs | kernel/system_stats.c:217-224 | despite the unsigned subtraction the clamp leaves the complement of the percentage, or 100 |
| SystemStats.UsageAccurate | kernel/system_stats.c:217-224 | when the idle ticks are part of the elapsed ones, usage is within 1 of the exact figure |
| SystemStats.IdleIsPart | kernel/system_stats.c:198-245 | in every run whose readings never go back they are: the counters hold the time halted since the last tick and the reading at it |
| SystemStats.RunUsage | kernel/system_stats.c:198-245 | so at every tick of such a run the usage is within 1 of the exact share of the time not halted since the last tick |
| SystemStats.RunCounts | kernel/system_stats.c:198-245 | after any run, closed forms for update counter, uptime and memory in the number of updates, whatever the readings |
| SystemStats.RunBounds | kernel/system_stats.c:198-245 | in every run: usage in [0, 100], memory a multiple of 4, never falling, never past half of the total |

## Left out

- Boot sector, protected mode, linker script, interrupt table and controller set-up, port I/O except the two cursor registers: hardware set-up.
- CPUID, RDTSC, HLT and CPU naming: readings of the time-stamp counter are arbitrary inputs, as are the keyboard's status byte and scancode.
- ls, cat, pwd, help, version, banner, shutdown, reboot, and the messages printed by the commands: output only.
- `execute_command`: inside the keyboard it is any sequence of prints and clears; splitting a command line into name and arguments is not part of this model.
- FAT geometry fields and the disk and tick figures of the statistics: set once and not used again by the modelled code; the bars and figures of the resource monitor other than its clock.
- A string that is only read is the text before its terminator; a content buffer is its string. The 512-byte size of a content buffer and the texts it holds at boot are not modelled.
- Characters are Dafny characters; the sign of a C `char` never matters to the comparisons made.
- Directory arrays grow when a full one gets another entry, and the dot entries of a new directory belong to it. In the C code the arrays have no room for growth and the dot entries are a local variable of mkdir.
- Cluster numbers in entries are below 16, so the range tests on them are always true; the commands never create others.
- FileSystem.FileSystem.ChangeDirectory: asks for a path of at most 254 characters before the call, as the slash is added without a length test; `Tree.PathAgrees` gives 195.
- FileSystem.FileSystem.TouchFile: asks for a current directory that has an array, since the C code would write through a null pointer; `USER` and `GUEST` have none at boot.
- FileSystem.FileSystem.DeleteFile: asks that the file found does not name the current directory, without which the C code would free the directory it is shifting; so it is in every well-formed state (`Deleting.RmKeeps`).
- FileSystem.FileSystem.ResolvePath: asks for components of at most 12 characters and a path of at most 255, the sizes of its local buffers. The same goes for mkdir, cp and mv.
- FileSystem.FileSystem.CreateDirectory: asks for a parent that has an array, as do cp and mv for their destination; in a well-formed state it always has (`Creating.MkdirInRoot`, `Navigate.ParentResolves`).
- FileSystem.FileSystem.DeleteFiles: asks the same of the files it takes (`Deleting.BulkIsFilter`). One method stands for both bulk deletes, which differ in the test of an entry only.
- FileSystem.FileSystem.DeleteDirectory: asks for `CwdSafe`, for the same reason; every well-formed state has it (`Deleting.InvCwdSafe`).
- Moving.MvKeeps: mv of "." or ".." is not admitted in runs, nor treated by `MvLosesNothing` and `MvKeepsPath`; under a name that is new once stored it always breaks the structure (`Moving.MvStructure`).
- Moving.MvStructure: a destination name that prints as nothing, or like an entry already there, is left out; for other sources than dot entries `Moving.MvKeeps` covers it.
- Console.Console.KprintAt: coordinates are unbounded integers; the overflow of 32-bit offsets for huge coordinates is not modelled. `kprint` never gets near it.
- `str_equal` and `str_starts_with` of the keyboard driver: used for command dispatch only.
