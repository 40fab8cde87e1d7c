# ME OS: a verified model of the kernel's logic

ME OS is a small C kernel whose hardest logic is kept free of hardware. This
project models that logic in Dafny and proves what it is for. Code that works
in place on tables, linked nodes, arrays or records is modelled as classes and
methods over arrays and fields, each proved against a specification function or
an outright statement; what the source promises is then proved about the
specification, over every input and every run. `dafny verify dfyconfig.toml`
checks everything.

## How it is laid out

- `Common.dfy`, `Counting.dfy`: shared types, 64-bit bounds, sizes of sets.
- The filesystem. `VfsTypes`, `VfsTree`, `VfsReroot`, `VfsNames` and `VfsSpec`
  say what a filesystem is as a tree, what a path means, and what each
  operation does. `VfsTable`, `VfsBlock`, `VfsPath`, `VfsLink`, `VfsFile` and
  `VfsMove` are the node table, the block pool and the operations as the kernel
  has them, each leaving a table that stands for the specified tree. `VfsLaws`
  has the laws over paths and contents, and `VfsPathLaws` says by path alone
  what each operation accepts and what every path finds after it. `VfsFormat`,
  `VfsCheck`, `VfsSound`, `VfsDisk` and `VfsRoundTrip` are the disk format, the
  disk check, saving and loading.
- Memory. `Pmm` is the bitmap allocator. `Paging`, `Vmm`, `VmmTrace`,
  `VmmSpace` and `VmmFree` are page tables: the bits of an entry, the tree, the
  descent through raw entries, the operations, the teardown. `VmmWalk` is the
  walk of the processor, which is given an address and nothing else, and what it
  finds. `ProcessImage`, `Process` and `Processes` are the frames a process owns
  and the table of processes over one allocator. `Elf` and `ElfLoad` check and load programs,
  `PageCosts` is what the pages of one need, `ElfWritten` writes program files
  down, and `ElfRights` says what each of the three permission bits of a
  segment does to the file and to its pages.
  `Uaccess` and `UaccessLaws` are the copies between kernel and program.
- The calculator. `CalcSyntax` is the grammar as trees with their spacing,
  `CalcRoundTrip` printing and parsing, `CalcArith` the checked arithmetic,
  `CalcValue` what a tree is worth, `CalcEval` working it out while reading,
  `CalcVars` the variable table, `Calc` the parser object, and
  `CalcMeaning` says what the characters, the digits, the signs and the
  comparisons of a line mean in integers alone.
- The smaller cores. `Mines`; `Rect`; `Region`, `Surface`, `WindowStack`,
  `Windows`, `Compositor`; `Tile`; `TileMeaning`, which measures tiles from the
  edges of the screen; `DesktopSpec`, `Desktop`; `EditorText`, `Editor`.

Physical memory is a map from frame number to a table of entries or a page of
bytes; an entry is a frame and its flags, and `Paging` proves on 64-bit words
that an entry keeps both. The predicate of an address space names the tree of
its tables as a finite map from paths of indices to frames. Ghost fields hold
the abstract value where the source has only the concrete one.

## Findings

Where the code does not meet what it or its comments promise, the model keeps
the code as it is, gives an input, and says exactly when the promise is kept.

- The disk check climbs parent links of nodes it has not looked at yet, so a
  disk can make it read outside the node table
  (kernel/src/vfsdisk_check.c:101-110, 160-167). `VfsSound.DiskSound` and
  `VfsDisk.Load` say exactly for which records; `VfsDisk.LoadStrays` is such a
  disk. Every such disk is refused (`VfsDisk.AcceptedStays`).
- Names may hold control characters and bytes from 128 up, which the disk check
  refuses: a filesystem with such a name is lost once saved
  (kernel/src/vfspath.c:166-183, kernel/src/vfsdisk_check.c:35-51).
  `VfsRoundTrip.SaveAndLoad` has the condition, in both directions;
  `VfsRoundTrip.ControlCharacterLost` is a run of one operation.
- An overwrite gives the old blocks back before it asks for new ones, so a
  refused one empties the file (kernel/src/vfsfile.c:49-62).
  `VfsLaws.RefusedWriteKeeps` has the condition; `VfsLaws.OverwriteLoses` is a
  run.
- `pmm_reserve` and `pmm_add_free` add base and length in 64 bits, so a range
  that ends at 2^64 or beyond is not reserved, or not added
  (kernel/src/pmm.c:85-132). `Pmm.ReservePromise` and `Pmm.AddFreePromise` have
  the conditions; `Pmm.ReserveWraps` and `Pmm.AddFreeWraps` are ranges, and
  `Pmm.ReservedAndFree` is a run.
- `pmm_free` takes page 0, whose address stands for failure
  (kernel/src/pmm.c:161-180): the next request then reports that there is no
  page, and the page is lost. `Pmm.Allocator.Free` has the condition, in both
  directions; `Pmm.FreedAndLost` is a run.
- `editor_text` leaves no terminator when the room runs out exactly at a line
  break (kernel/src/editor.c:101-136). `Editor.UnterminatedExactly` has the
  condition; `Editor.Unterminated` is a text and a buffer.
- `elf_check` looks at the number of segments before it looks at their size, so
  after eight segments a loadable one of no size is refused, which its comment
  says asks for nothing (kernel/src/elf.c:130-152). `Elf.AcceptedUnlessLate` has
  the condition, in both directions; `ElfWritten.NinthRefused` is a file.
- Two segments may share a page, although the comment on the overlap check says
  that both cannot be honoured then: byte ranges are compared
  (kernel/src/elf.c:170-181). The page keeps the permissions of the segment
  loaded first (`ElfLoad.FirstFlags`), so another one of that page has its own
  exactly when they are the same (`ElfLoad.SharedFlags`).
  `ElfWritten.TwoInAPage` is a file, and `ElfWritten.WriteLost` what it loses.
- In Minesweeper the counts of open squares and of flags are not kept up when a
  mine is hit (user/mines.c:185-199). The first is wrong after every hit
  (`Mines.OpensUncounted`), the second exactly when a mined square carried a flag
  (`Mines.FlagsUncounted`); `Mines.LoseAGame` is a game.

## Model

| member | source | states |
|---|---|---|
| `VfsTree.ClimbBound` | kernel/src/vfsdisk_check.c:98-110 | a climb along parent links that reaches the root at all reaches it in fewer steps than there are slots (pigeonhole), so the step limit of the disk check never refuses a tree |
| `VfsTree.FindIffPath` | kernel/src/vfspath.c:120-164 | in a tree with distinct sibling names a list of names finds a node exactly when it is that node's own path |
| `VfsReroot.MoveKeepsTree` | kernel/src/vfsmove.c:61-103 | moving an entry to a directory that is not inside it leaves one tree: every node listed once, by its parent, and reaching the root |
| `VfsReroot.MoveReroots` | kernel/src/vfsmove.c:61-103 | after a move every list of names finds what it should: below the new place what the same suffix found below the old one, below the old place nothing, elsewhere what it found before |
| `VfsReroot.MovedPath` | kernel/src/vfsmove.c:61-103 | the path of every node after a move: those inside the moved entry have its old path replaced by its new one, all others keep theirs |
| `VfsReroot.RemoveUndoesAdd` | kernel/src/vfstree.c:24-53 | removing an entry just made gives back the very same tree |
| `VfsReroot.RemoveKeepsTree` | kernel/src/vfsmove.c:26-59 | taking out a file or an empty directory leaves one tree |
| `VfsNames.PrintedResolves` | kernel/src/vfspath.c:120-164 | resolving the printed path of a node gives that node, whatever the working directory |
| `VfsNames.HolderThenName` | kernel/src/vfspath.c:49-110 | the parent-only walk followed by a look-up of the last name agrees with the full walk, unless the last name is `.` or `..` |
| `VfsPathLaws.Joins` | kernel/src/vfspath.c:49-110 | a path, a slash and a relative path lead where the second leads from the end of the first |
| `VfsPathLaws.Dots` | kernel/src/vfspath.c:87-94 | after a slash a dot stays and two dots lead to the entry with one name less on its path, the root to itself |
| `VfsPathLaws.WordGoesDown` | kernel/src/vfspath.c:95-104 | and any other word leads to the entry with that name more on its path, or nowhere |
| `VfsPathLaws.UsableIs` | kernel/src/vfspath.c:166-183 | a name can be used exactly when it is one word of a path, not a dot name, that fits its field with a terminator |
| `VfsSpec.Run` | kernel/src/vfs.c:32-62 | every run of make, chdir, write, append, remove, move and copy from the empty filesystem keeps everything the kernel relies on: one tree, distinct usable sibling names, a live working directory, files no longer than their blocks allow, no more blocks than there are |
| `VfsSpec.MoveKeeps` | kernel/src/vfsmove.c:61-103 | one move, accepted or refused, keeps all of that |
| `VfsSpec.DoKeeps` | kernel/src/vfsfile.c:15-105 | so does one step of any kind |
| `VfsTable.Init` | kernel/src/vfs.c:32-62 | the node table after `vfs_init` is a valid one that stands for the empty filesystem |
| `VfsPath.Walk` | kernel/src/vfspath.c:49-110 | the cursor loop over the path, on the linked node table, lands where the names of the path lead in the tree |
| `VfsPath.PathOfNode` | kernel/src/vfspath.c:120-164 | written backwards and moved to the front, the buffer holds the printed path and a terminator exactly when it fits, and nothing is reported otherwise |
| `VfsPath.ChildNamed` | kernel/src/vfspath.c:33-43 | walking the sibling list finds the first child of that name |
| `VfsLink.MakeEntry` | kernel/src/vfstree.c:58-115 | the linked table after `vfs_make` stands for the specified tree, with the specified verdict, and stays valid |
| `VfsPathLaws.MakeLaw` | kernel/src/vfstree.c:58-126 | what an accepted make leaves, by path: an empty directory or an empty file as asked, of the path's last name, last in its directory, in a slot that was free; every other entry and every other list of names as before |
| `VfsPathLaws.MakeResolves` | kernel/src/vfstree.c:58-126 | every path that led somewhere leads there still |
| `VfsPathLaws.MakeAccepted` | kernel/src/vfstree.c:58-85 | when something can be made, and the exact reason of every refusal |
| `VfsLink.UnlinkFromParent` | kernel/src/vfstree.c:24-38 | relinking takes one entry out of its parent's list and changes no other list and no stored bytes |
| `VfsLink.LinkInto` | kernel/src/vfstree.c:40-53 | relinking puts an unlisted entry at the end of a directory's list and changes nothing else |
| `VfsLink.ChangeDir` | kernel/src/vfstree.c:128-142 | the working directory becomes what the path names, when that is a directory |
| `VfsPathLaws.ChdirLaw` | kernel/src/vfstree.c:128-142 | a relative path then leads where the directory's path, a slash and it led before, and an absolute one where it did |
| `VfsPathLaws.ChdirAccepted` | kernel/src/vfstree.c:128-142 | accepted exactly for a path to a directory, with each refusal's reason; the tree is unchanged |
| `VfsMove.IsWithin` | kernel/src/vfsmove.c:14-24 | the climb over parent links answers whether one node is inside another, and ends |
| `VfsMove.RemovePath` | kernel/src/vfsmove.c:26-59 | verdict and resulting filesystem are those of the specification; blocks and slot are given back |
| `VfsPathLaws.RemoveLaw` | kernel/src/vfsmove.c:26-59 | the path then finds nothing, every other list of names what it did, and every other entry but the directory it was in is unchanged |
| `VfsPathLaws.RemoveAccepted` | kernel/src/vfsmove.c:26-59 | accepted exactly for a file or an empty directory that is neither the root nor the working directory, with each refusal's reason |
| `VfsMove.MovePath` | kernel/src/vfsmove.c:61-103 | verdict and resulting filesystem are those of the specification, after unlinking, renaming and linking in place |
| `VfsMove.CopyPath` | kernel/src/vfsmove.c:105-149 | verdict and resulting filesystem are those of the specification; a copy refused half way leaves nothing behind |
| `VfsBlock.Take` | kernel/src/vfsblock.c:41-58 | the lowest unused block, every one below it used, marked and cleared; none exactly when all are used |
| `VfsBlock.Reserve` | kernel/src/vfsblock.c:76-113 | all or nothing: it succeeds exactly when the request fits the node and the pool, a refusal changes no node and no mark, and bytes held by anybody stay |
| `VfsBlock.Release` | kernel/src/vfsblock.c:67-74 | exactly the node's own blocks are unmarked, and everyone else's ownership stands |
| `VfsBlock.OwnerCount` | kernel/src/vfsblock.c:76-113 | blocks owned are the sum of what the nodes hold, and never more than the pool: disjointness in numbers |
| `VfsFile.FileForWriting` | kernel/src/vfsfile.c:15-30 | the file a write goes to, made when the path names nothing |
| `VfsFile.AppendBytes` | kernel/src/vfsfile.c:71-105 | bytes written into blocks one by one stand for the old contents with the new after them, or the refusal of the specification |
| `VfsFile.WriteBytes` | kernel/src/vfsfile.c:49-62 | verdict and filesystem are those of the specification, including the emptied file of a refused overwrite |
| `VfsFile.ReadFile` | kernel/src/vfsfile.c:107-141 | the buffer holds as much of the file as fits and a terminator |
| `VfsLaws.MoveLaw` | kernel/src/vfsmove.c:61-103 | the re-rooting law for an accepted `vfs_move` by path, with every file's contents unchanged |
| `VfsLaws.MoveUnderItself` | kernel/src/vfsmove.c:89-99 | the surgery gives a tree if and only if the destination is not inside what is moved: the guard is exactly what is needed |
| `VfsPathLaws.MoveAccepted` | kernel/src/vfsmove.c:61-103 | a move is accepted exactly when the source is there and not the root, and the destination is a usable name that finds nothing, in a directory whose path does not start with the source's; each refusal has its reason and changes nothing |
| `VfsPathLaws.MoveLists` | kernel/src/vfsmove.c:92-103 | a moved entry is listed last where it went and no longer where it was, and every list keeps its order otherwise |
| `VfsLaws.WrittenReads` | kernel/src/vfsfile.c:49-141 | an accepted write or append reads back as the new bytes, or the old then the new, and every other file reads as before |
| `VfsPathLaws.WriteAccepted` | kernel/src/vfsfile.c:15-105 | a write or append is accepted exactly when the path leads to a file, or one can be made there, and the new contents are not too long and fit the pool beside every other file |
| `VfsPathLaws.WriteFinds` | kernel/src/vfsfile.c:15-105 | it moves nothing: every list of names finds what it did, but for a file made |
| `VfsPathLaws.BlocksForIsLeast` | kernel/src/vfsblock.c:76-113 | the blocks reckoned for a length are the fewest of 512 bytes that hold it |
| `VfsPathLaws.ReadIsStart` | kernel/src/vfsfile.c:107-141 | what is read is the start of the contents, all of it or one byte less than the buffer |
| `VfsLaws.CopyReads` | kernel/src/vfsmove.c:105-149 | a copy reads as its source, and so does the source still |
| `VfsPathLaws.CopyAccepted` | kernel/src/vfsmove.c:105-149 | a copy is accepted exactly when the source is a file, nothing is at the destination, a file can be made there and there is room |
| `VfsPathLaws.CopyFinds` | kernel/src/vfsmove.c:105-149 | and it leaves every list of names as making that file would |
| `VfsLaws.RefusalsKeep` | kernel/src/vfsfile.c:71-105 | a refused append to something that exists and a refused copy leave the whole filesystem as it was |
| `VfsLaws.RefusedWriteKeeps` | kernel/src/vfsfile.c:49-62 | a refused overwrite leaves the filesystem as it was if and only if the file held no bytes |
| `VfsLaws.OverwriteLoses` | kernel/src/vfsfile.c:49-62 | a run after which one byte is lost to an overwrite that is refused |
| `VfsFormat.RecordRoundTrip` | kernel/src/vfsdisk_format.c:84-131 | a node written to a sector and read back is the same node; a free one reads back as free |
| `VfsFormat.HeaderRoundTrip` | kernel/src/vfsdisk_format.c:45-82 | the header written says the magic and the eight numbers the judge looks for |
| `VfsFormat.LowestFirst` | kernel/src/vfsdisk_format.c:8-35 | numbers on the disk have their lowest byte first |
| `VfsFormat.JudgeHeader` | kernel/src/vfsdisk_format.c:63-82 | accepted exactly when magic, version and every dimension match, each refusal for its own reason |
| `VfsCheck.Rebuild` | kernel/src/vfsblock.c:156-193 | accepts exactly the tables whose block lists are gap-free, in range and disjoint, and the bitmap it builds is exactly their union |
| `VfsSound.NameOk` | kernel/src/vfsdisk_check.c:35-51 | accepts exactly the names that end inside their field, with no slash and only printable characters |
| `VfsSound.FieldsOk` | kernel/src/vfsdisk_check.c:53-96 | accepts exactly the nodes whose fields are sane, clause by clause |
| `VfsSound.ClimbsToTheRoot` | kernel/src/vfsdisk_check.c:101-110 | a climb that stays in the table answers whether the node reaches the root; it leaves the table exactly when a parent on the way does |
| `VfsSound.ChildrenAgree` | kernel/src/vfsdisk_check.c:119-146 | the marking loop accepts only tables where every used node is listed once by its own parent, and refuses only tables that spell no tree |
| `VfsSound.DiskSound` | kernel/src/vfsdisk_check.c:148-177 | sound and complete: accepted if and only if the fields are sane, the links spell a tree and the working directory is a directory of it; and the exact condition under which the check reads outside the table |
| `VfsSound.SaneNeverStrays` | kernel/src/vfsdisk_check.c:148-177 | no table with sane fields makes the check read outside |
| `VfsDisk.Save` | kernel/src/vfsdisk.c:27-68 | the disk holds the image of the filesystem, or the write that failed is reported; sectors beyond the image are untouched |
| `VfsDisk.ImageLayout` | kernel/src/vfsdisk.c:27-68 | where on the disk everything is, byte by byte: the magic, every field of every record, every byte of the pool in use |
| `VfsDisk.Load` | kernel/src/vfsdisk.c:70-126 | for any disk at all: a valid filesystem with the nodes and bytes on the disk exactly when the table is acceptable, the old one untouched on a header failure, an empty one otherwise; and it reads outside the table exactly when the records say so |
| `VfsDisk.AcceptedIsFs` | kernel/src/vfsdisk.c:106-126 | an accepted table stands for a filesystem that keeps every promise of a run |
| `VfsDisk.AcceptedStays` | kernel/src/vfsdisk_check.c:148-177 | no disk that is accepted makes the check read outside |
| `VfsDisk.LoadStrays` | kernel/src/vfsdisk_check.c:101-110 | one whole disk, header and records, whose load reads outside the node table |
| `VfsRoundTrip.SaveAndLoad` | kernel/src/vfsdisk.c:27-126 | a valid filesystem saved and loaded comes back, tree, used nodes, used blocks and bitmap, with the root as working directory, if and only if every name in it is printable; otherwise the load is refused |
| `VfsRoundTrip.AcceptedIffPrintable` | kernel/src/vfsdisk_check.c:35-51 | the check accepts a saved filesystem exactly when all its names are printable |
| `VfsRoundTrip.OneTree` | kernel/src/vfsdisk.c:70-126 | nodes and blocks stand for one filesystem only |
| `VfsRoundTrip.OneBitmap` | kernel/src/vfsblock.c:156-193 | the bitmap is determined by the block lists |
| `VfsRoundTrip.RunPrintable` | kernel/src/vfspath.c:166-183 | every run whose paths are printable ends in a filesystem that survives the round trip |
| `VfsRoundTrip.ControlCharacterLost` | kernel/src/vfspath.c:166-183 | a run of one operation whose result is refused once saved |
| `Pmm.Allocator.AddFree` | kernel/src/pmm.c:85-113 | exactly the whole pages of the range, as 64-bit arithmetic gives it, join the free ones, and the count stays the number of clear bits |
| `Pmm.Allocator.Reserve` | kernel/src/pmm.c:115-132 | exactly the pages the range touches, as 64-bit arithmetic gives it, leave |
| `Pmm.Allocator.Alloc` | kernel/src/pmm.c:134-159 | the first free page from the hint up, and then from the bottom, no longer free; none exactly when there is none but frame 0 |
| `Pmm.FreedIsNext` | kernel/src/pmm.c:134-180 | a page freed below the hint is the next one handed out |
| `Pmm.Allocator.Free` | kernel/src/pmm.c:161-180 | any address: a page that is covered and in use becomes free, anything else is counted as a bad free; the allocator stays one that hands out what it has, if and only if that was not page 0 |
| `Pmm.ReservePromise` | kernel/src/pmm.c:115-132 | no page the range touches is free afterwards if and only if its end fits in 64 bits, or no free page but a first one inside the wrapped end is touched |
| `Pmm.ReserveWraps` | kernel/src/pmm.c:115-132 | the last page but one of memory, free before, is free after it was reserved with the one above it |
| `Pmm.ReservedAndFree` | kernel/src/pmm.c:115-132 | a run on a new allocator: the page is handed over, reserved, and reported free |
| `Pmm.FreedAndLost` | kernel/src/pmm.c:134-180 | a run on a new allocator: page 0 is freed, and the next request says that there is none and loses it |
| `Pmm.AddFreePromise` | kernel/src/pmm.c:85-113 | every whole page of the range is free afterwards if and only if its end fits in 64 bits, or they all were free |
| `Pmm.AddFreeWraps` | kernel/src/pmm.c:85-113 | a covered page at the top of memory that is not taken in |
| `Pmm.BitUpdate` | kernel/src/pmm.c:38-59 | setting and clearing one bit of a byte changes that bit only |
| `Paging.EntryKeepsAddress` | kernel/src/paging.c:30-41 | on 64-bit words: an entry built from an address and flags without address bits gives the address back |
| `Paging.EntryKeepsFlags` | kernel/src/paging.c:30-41 | and the flags |
| `Paging.EntryBits` | kernel/include/paging.h:36-52 | which bit of an entry is which flag |
| `Paging.AddressBits` | kernel/include/paging.h:36-52 | and which bits are its address, none of them a flag |
| `Paging.WidenParts` | kernel/src/vmm.c:61-110 | or-ing missing flags into an entry keeps its address and joins the flags |
| `Paging.ParentFlagsParts` | kernel/src/paging.c:48-58 | parent entries are present, writable, user only when the leaf is, never huge and never no-execute |
| `Paging.IndicesFaithful` | kernel/src/paging.c:9-19 | two lower-half pages with the same four indices are the same page |
| `VmmWalk.PathSpells` | kernel/src/paging.c:9-19 | a lower-half page is what its four indices spell in base 512, the top level first |
| `Vmm.LeafRights` | kernel/src/paging.c:48-58 | the rights the processor computes by combining four levels are those of the leaf entry |
| `Vmm.Widened` | kernel/src/vmm.c:61-110 | widening a parent changes what no address means |
| `Vmm.Extended` | kernel/src/vmm.c:61-110 | hanging an empty table in the tree changes what no address means |
| `VmmTrace.LowerTrace` | kernel/src/vmm.c:61-110 | the descent through raw entries of any lower-half address reaches what the tree says |
| `VmmWalk.WalkIsLeaf` | kernel/src/vmm.c:61-110 | a walk given an address and no path, nine bits a level from the top down, finds exactly what the tree says of the page, and the rights it collects are the entry's own |
| `VmmWalk.WalkIsEntryAt` | kernel/src/vmm.c:61-110 | in either half it finds the entry the descent by indices does |
| `VmmTrace.UpperTrace` | kernel/src/vmm.c:176-192 | the descent of any upper-half address stays in the kernel's tables and finds no user leaf |
| `VmmTrace.KernelHalfKept` | kernel/src/vmm.c:176-192 | a top-level table with the same upper entries has the same kernel half, as long as the kernel's tables are not written |
| `VmmSpace.Create` | kernel/src/vmm.c:33-46 | one empty table from the free frames, or nothing changed exactly when there are none |
| `VmmSpace.Map` | kernel/src/vmm.c:112-131 | refines a finite map from page to entry: exactly one page gains the asked entry, every refusal changes none, and each result has its exact condition, running out of memory included: fewer free frames than tables missing on the way; the walk by the address finds the new entry, with the rights asked for, and at every other page what it found |
| `VmmSpace.Unmap` | kernel/src/vmm.c:133-149 | exactly one page loses its entry, or none, and so for the walk by the address |
| `VmmSpace.Translate` | kernel/src/vmm.c:151-174 | any canonical address, either half, translates to the frame, offset and flags of the entry the walk by the address finds; in the lower half that is the map's, in the upper one never a user entry |
| `VmmSpace.ShareKernel` | kernel/src/vmm.c:176-192 | the upper half is the other space's, and no lower address means anything else than before |
| `VmmFree.FreeBelow` | kernel/src/vmmfree.c:36-55 | the recursion gives back each table under an entry exactly once, and counts them |
| `VmmFree.Destroy` | kernel/src/vmmfree.c:57-86 | exactly the tables of the tree are free again, none of the shared kernel half, and only the top table is written; an adopted space gives nothing back and writes nothing |
| `Process.NewUserSpace` | kernel/src/vmmboot.c:46-60 | a space that maps nothing and shares the kernel half, or everything as it was |
| `Process.AddPageAt` | kernel/src/process.c:173-213 | the page is filled where it is mapped, added where it is not, and a refusal changes no byte any address means; it succeeds exactly when the bytes fit a page and the page is there or list and memory have room |
| `Process.Discard` | kernel/src/process.c:255-269 | exactly the pages and tables the process held are free again, each given back once |
| `Processes.ProcessTable.Create` | kernel/src/process.c:134-165 | the first unused slot, every one before it used, owning one table; refused exactly when every slot is used or no frame is free |
| `Processes.ProcessTable.AddPage` | kernel/src/process.c:173-213 | what one process gains left the free frames, and every other process owns, maps and sees what it did |
| `Processes.ProcessTable.Destroy` | kernel/src/process.c:255-269 | exactly that process's frames come back, and the others are untouched |
| `Processes.ProcessTable.OneChanged` | kernel/src/process.c:134-269 | moving frames between the free ones and one process keeps every frame in one place |
| `Processes.ProcessTable.Run` | kernel/src/process.c:134-269 | over any interleaving of create, add page and destroy: every frame is free or one process's page or table, never two of them; nothing is given back twice and nothing outside the pool is written |
| `Processes.ProcessTable.NothingLeaks` | kernel/src/process.c:255-269 | when every slot is unused, every frame of the pool is free |
| `Processes.ProcessTable.DestroyAll` | kernel/src/process.c:255-269 | destroying everything, whatever happened before, gives the whole pool back |
| `Elf.Fits` | kernel/src/elf.c:61-70 | the overflow-free form of the range check says that the range fits |
| `Elf.Check` | kernel/src/elf.c:104-210 | accepted exactly when header, table and every loadable segment are as required, pairwise disjoint and within the limits, and the entry is in an executable one; what is reported of an accepted file; and of a refused one the exact reason, which segment it is and what is wrong with it |
| `ElfRights.EntryRuns` | kernel/src/elf.c:195-210 | a file of one segment in range with the entry inside it is accepted if and only if the segment's executable bit is set, whatever the others are |
| `Elf.AcceptedUnlessLate` | kernel/src/elf.c:130-152 | a file that should be accepted, were entries that ask for nothing passed over, is accepted if and only if none of them comes after the eighth segment; and no other file is |
| `ElfWritten.NinthRefused` | kernel/src/elf.c:130-152 | a file of eight segments and one of no size, which is refused |
| `ElfLoad.PartExact` | kernel/src/elfload.c:45-91 | the share of a segment that lands in one page is exactly the file bytes whose addresses are in that page |
| `ElfLoad.LoadedIsDescribed` | kernel/src/elfload.c:45-91 | loading segments one after another over an empty space gives the image the program headers describe, also where two share a page |
| `ElfLoad.FreshImage` | kernel/src/elfload.c:45-91 | after an accepted load into a fresh process every lower-half address holds its file byte, or zero in the rest of a segment's pages, or is unmapped |
| `ElfLoad.Load` | kernel/src/elfload.c:45-91 | a file that is not acceptable changes nothing; it succeeds exactly when the file is acceptable, every page of it not yet mapped has a place in the list, and the free frames are enough for those pages and the tables missing on their ways; then image, flags and entry are exactly those loaded |
| `ElfLoad.FirstFlags` | kernel/src/elfload.c:45-91 | a page has the permissions of the first segment that touches it, so one that no other touches has its own |
| `ElfRights.PageRights` | kernel/src/elfload.c:30-43 | bit by bit: a page is writable exactly if its first segment has the writable bit, and no-execute exactly if it lacks the executable bit where that is enforced |
| `ElfRights.LoadedRights` | kernel/src/elfload.c:30-91 | and after a load that is what the processor's walk allows at every address of the page |
| `ElfLoad.SharedFlags` | kernel/src/elf.c:170-181 | a segment that shares a page has its permissions there if and only if it and the first one agree on writing and, where it is enforced, on executing |
| `ElfWritten.TwoInAPage` | kernel/src/elf.c:170-181 | a file whose two segments, code and then data, share a page, is accepted |
| `ElfWritten.WriteLost` | kernel/src/elfload.c:30-43 | that page, loaded, cannot be written, as the data asks |
| `PageCosts.TooMuch` | kernel/src/elfload.c:45-91 | once a page cannot be had, no larger set of new pages could have been: what stopped the loading is a shortage for the whole file |
| `Uaccess.RangeOk` | kernel/src/uaccess.c:38-62 | for any address and length: accepted exactly when every byte of the untruncated range is user-reachable, which no kernel address is |
| `Uaccess.CopyIn` | kernel/src/uaccess.c:64-89 | the page-by-page copy is the byte-by-byte copy through the translation, or touches nothing when any byte is out of reach |
| `Uaccess.CopyOut` | kernel/src/uaccess.c:91-113 | memory is what writing the bytes one by one gives, or exactly what it was |
| `Uaccess.CopyString` | kernel/src/uaccess.c:115-151 | succeeds exactly when a readable terminator lies within the capacity, and then holds the string and no more |
| `UaccessLaws.CopyImage` | kernel/src/uaccess.c:91-113 | a copy out changes exactly the addressed bytes of the image, writes pages only and keeps the mappings |
| `UaccessLaws.CopyIsolated` | kernel/src/uaccess.c:91-113 | it changes no byte, page or table of another process |
| `UaccessLaws.ProcessAccessible` | kernel/src/process.c:134-165 | every process of the table meets what the copies ask for |
| `UaccessLaws.ReachableIsAllowed` | kernel/src/uaccess.c:17-36 | an address is the program's to read or write exactly when it is below the kernel's half and the processor's walk of it would allow that |
| `UaccessLaws.ByteIsWalked` | kernel/src/uaccess.c:17-36 | and the byte there is the one at its offset in the frame that walk ends in |
| `UaccessLaws.GivenRights` | kernel/src/process.c:173-213 | a page added to a process is allowed by the processor's walk exactly as was asked, and always to the program |
| `CalcArith.QuotientTowardZero` | kernel/src/calc.c:193-204 | the quotient truncates toward zero, as the machine division does |
| `CalcArith.MulChecked` | kernel/src/calc.c:157-191 | the checks by division accept exactly the products that fit in 64 bits |
| `CalcArith.DivChecked` | kernel/src/calc.c:193-204 | refused for a zero divisor and for the one quotient that does not fit |
| `CalcArith.PowChecked` | kernel/src/calc.c:206-244 | the exact power when it fits, refused otherwise, in at most 64 turns of the loop |
| `CalcRoundTrip.ReadsPrinted` | kernel/src/calc.c:248-509 | every line of the grammar, with any spacing, printed and parsed is the same line |
| `CalcRoundTrip.ReadsOnlyPrinted` | kernel/src/calc.c:248-509 | whatever parses is a printed line: the parser accepts no more than the grammar |
| `CalcValue.StatementExact` | kernel/src/calc.c:441-509 | the checked value of a tree is its mathematical value exactly when every value on the way fits and is defined |
| `CalcMeaning.ConditionMeans` | kernel/src/calc.c:464-509 | a conditional is worth the THEN value exactly when what its printed symbol says of the difference of the two sides is so, and the ELSE value otherwise |
| `CalcMeaning.SumMeans` | kernel/src/calc.c:386-405 | a printed plus adds and a minus takes away |
| `CalcMeaning.TimesMeans` | kernel/src/calc.c:366-385 | a star multiplies |
| `CalcMeaning.OverMeans` | kernel/src/calc.c:366-385 | a slash divides with what is left over smaller than the divisor and of the dividend's sign, and has no value for a zero divisor |
| `CalcMeaning.PowerMeans` | kernel/src/calc.c:322-341 | a caret multiplies the base so many times, and has no value for a negative number |
| `CalcMeaning.SignMeans` | kernel/src/calc.c:344-364 | a minus before an operand negates it |
| `CalcMeaning.DigitsMean` | kernel/src/calc.c:248-269 | digits count by powers of ten |
| `CalcEval.StatementAgrees` | kernel/src/calc.c:441-509 | working a line out while it is read agrees with the value of its tree |
| `CalcVars.Vars.Get` | kernel/src/vars.c:55-67 | the search finds exactly what is stored |
| `CalcVars.Vars.Set` | kernel/src/vars.c:69-87 | a name is replaced in place or added at the end, refused exactly when it is no name or the table is full, and no other name changes |
| `Calc.Evaluate` | kernel/src/calc.c:534-555 | the recursive-descent parser over the text and the table does what the specification of a line says, table and output included |
| `Calc.PrintedAnswer` | kernel/src/calc.c:534-555 | for every tree and spacing: the exact mathematical answer and assignment when everything fits and there is room, otherwise a refusal that changes nothing |
| `CalcMeaning.ConditionAnswer` | kernel/src/calc.c:534-555 | the answer to the text of a conditional whose values fit: one branch's value, by its symbol |
| `Calc.UnprintedRefused` | kernel/src/calc.c:534-555 | text that is no printed line is refused and changes nothing |
| `Mines.Board.CountAround` | user/mines.c:164-182 | the loop over the three by three counts the neighbouring mines |
| `Mines.Board.Deal` | user/mines.c:151-183 | the chosen squares and no others are mined, and every count is right |
| `Mines.Board.Fill` | user/mines.c:185-239 | the explicit stack, never past the board, opens what is reachable and counts it |
| `Mines.ReachedIsSafe` | user/mines.c:185-239 | nothing reachable through squares with nothing beside them is a mine |
| `Mines.ClearedExactly` | user/mines.c:235-238 | the count of open squares says the game is won exactly when every safe square is open |
| `Mines.Board.Uncover` | user/mines.c:185-239 | a safe covered square opens exactly the covered squares reachable from it; a mine shows all mines and ends the game and leaves both counts as they were; anything else changes nothing |
| `Mines.OpensUncounted` | user/mines.c:185-199 | once a mine is hit there are always as many open squares more than counted as there are mines |
| `Mines.FlagsUncounted` | user/mines.c:185-199 | and the flags are counted right if and only if no mined square carried one |
| `Mines.LoseAGame` | user/mines.c:185-299 | a game of three moves after which both counts are wrong |
| `Mines.Board.Click` | user/mines.c:272-284 | the first click deals a board on which it is safe; a click does what uncovering does, and nothing on a flag or after the end |
| `Mines.Board.ToggleFlag` | user/mines.c:286-299 | a covered square and a flag change places, nothing else moves, and the count of flags stays right |
| `Rect.MovingRect.Reflect` | kernel/src/rect.c:100-113 | the reflection loop ends with the rectangle on the screen, at the place a full turn of both walls gives |
| `Rect.MovingRect.Advance` | kernel/src/rect.c:75-114 | whole steps and carried time of an interval, as 64-bit time gives it, and the place they lead to |
| `Rect.TimeSplitting` | kernel/src/rect.c:75-114 | advancing by one time and then another ends where advancing by their sum does, with the same carried time, and facing the same way off the walls; and where the sum does not overflow, neither part does |
| `Rect.TimeKept` | kernel/src/rect.c:86-88 | pixels gone and time carried over account for all the time there was |
| `Rect.SplitFits` | kernel/src/rect.c:75-114 | the 64-bit sums of the two parts fit when those of the whole do |
| `Rect.MovingRect.Nudge` | kernel/src/rect.c:49-73 | the rectangle ends inside its bounds, or did not move |
| `Rect.WrapKeepsRemainder` | kernel/src/rect.c:23-47 | crossing an end comes in at the other by the same remainder |
| `Region.Intersect` | kernel/src/region.c:26-36 | the points in both |
| `Region.UnionIsLeast` | kernel/src/region.c:38-53 | the union is inside every region that holds both |
| `Surface.ClipAxis` | kernel/src/surface.c:13-40 | clipping one axis keeps exactly the places that are on both, for any origin |
| `Surface.ViewShares` | kernel/src/surface.c:72-97 | a view's pixels are its parent's pixels at the offset |
| `Surface.FillRect` | kernel/src/surface.c:138-157 | exactly the pixels of the surface inside the rectangle change, in a strided array |
| `Surface.BlitClipped` | kernel/src/surface.c:252-297 | exactly the pixels inside surface, source and clip become the source's |
| `Windows.Manager.TakeId` | kernel/src/window.c:52-76 | the first identifier from the counter up, and round, that no window has; the counter goes on after it |
| `Windows.NotSoonAgain` | kernel/src/window.c:52-76 | an identifier does not come back while the counter goes once round, even if its window is destroyed at once |
| `Windows.Manager.Create` | kernel/src/window.c:78-123 | a new window on top, refused exactly when there is no slot, no fitting geometry or no fitting title |
| `Windows.Manager.Destroy` | kernel/src/window.c:138-162 | exactly that window leaves, and the order of the others stays |
| `Windows.Manager.Raise` | kernel/src/window.c:204-226 | the window comes on top and the others keep their order |
| `Windows.Manager.Focus` | kernel/src/window.c:281-311 | one window has the focus, or none; minimised ones are refused |
| `Windows.Manager.SetGeometry` | kernel/src/window.c:164-176 | accepted exactly when it fits and agrees with the picture attached |
| `Windows.Manager.HitTest` | kernel/src/window.c:238-252 | the topmost window showing at the point |
| `Compositor.SeenIsHit` | kernel/src/compositor.c:14-46 | what is seen at a point is the picture of the window a click there goes to, or the background |
| `Compositor.ComposeRegion` | kernel/src/compositor.c:14-46 | every pixel of the target in the region is what is seen there, and no other pixel changes |
| `Compositor.DamageIsEnough` | kernel/src/compositor.c:14-46 | for any two states of the windows: recomposing a region that holds every pixel where they differ brings an up-to-date target up to date |
| `Compositor.ChangeDamage` | kernel/src/compositor.c:14-46 | for one window changed, any region that holds its old and new frames is such a region |
| `Compositor.RaisedIsSeen` | kernel/src/window.c:204-226 | a raised window is seen wherever it shows and gets every click on it, and the others keep their order |
| `Compositor.RaiseDamage` | kernel/src/compositor.c:14-46 | for one window raised, any region that holds its frame |
| `Compositor.RemovalDamage` | kernel/src/compositor.c:14-46 | for one window removed or put in, any region that holds its frame |
| `Tile.Layout` | kernel/src/tile.c:87-143 | all the tiles the arithmetic gives are written, or none, exactly when they hold at the minimum size |
| `TileMeaning.LayoutMeans` | kernel/src/tile.c:44-143 | where the tiles are, by edges, gaps and the percentage alone: one takes all between the edges; more stand in two columns from edge to edge, the left with its clamped share, rows filling each column with nothing but gaps between |
| `TileMeaning.KeepsClear` | kernel/src/tile.c:44-60 | no tile is on a bar or nearer to bars and sides than the outer gap |
| `TileMeaning.ReachesEdges` | kernel/src/tile.c:44-60 | and on all four sides some tile comes exactly as near as that |
| `TileMeaning.WorkspaceIs` | kernel/src/tile.c:44-60 | the workspace is the largest area inside those edges |
| `TileMeaning.LayoutAccepted` | kernel/src/tile.c:62-143 | there is a layout exactly when every tile can be as wide and high as it must |
| `Tile.TilesFit` | kernel/src/tile.c:64-143 | with positive minimum sizes every tile is in the workspace, at least the minimum size, and disjoint from every other |
| `Tile.TilesTake` | kernel/src/tile.c:64-143 | the tiles together take no more pixels than the workspace has |
| `DesktopSpec.RoomIsEnough` | kernel/src/desktop.c:144-255 | with an arena of the screen's area, sides within 4096 and minimum sizes above the frame, every tile can be handed out |
| `DesktopSpec.FramesApart` | kernel/src/desktop.c:144-255 | visible apps have disjoint slices of the arena and disjoint places on the screen |
| `DesktopSpec.ClientMeans` | kernel/src/shell.c:44-52 | the inside of a frame is what the border and the title leave, pixel by pixel |
| `DesktopSpec.VisibleMeans` | kernel/src/desktop.c:150-156 | the apps laid out are all those neither hidden nor on another workspace, in order |
| `Desktop.Desktop.Relayout` | kernel/src/desktop.c:144-255 | succeeds exactly when the layout holds and the arena has room for every tile; then every app on screen has its tile and slice, every other is put away, and the focus stays if it is on the screen and otherwise goes to the first app that is; with no layout nothing changes; out of room, the tiles before the first that does not fit are shown, its window and app are as the refusal leaves them, and those after it keep the frames they had |
| `Desktop.Desktop.SettleFocus` | kernel/src/desktop.c:240-254 | the focus moves only when it is not on screen, and then to the first app that is |
| `Desktop.Desktop.Add` | kernel/src/desktop.c:24-49 | one app and one window more, the others as they were, or nothing changed; refused exactly when there is no place or the title is too long |
| `EditorText.InsertIsSplice` | kernel/src/editor.c:153-172 | a character put into a line is put into the flat text at the cursor |
| `EditorText.DivideIsSplice` | kernel/src/editor.c:174-201 | dividing a line puts a line break into the flat text at the cursor |
| `EditorText.JoinIsSplice` | kernel/src/editor.c:203-244 | joining two lines takes the break before the cursor out of the flat text |
| `EditorText.OutUndoesIn` | kernel/src/editor.c:203-244 | taking a character out undoes putting it in, cursor and all |
| `EditorText.FlatSplit` | kernel/src/editor.c:55-136 | a text split into lines and joined again is the text |
| `EditorText.SplitFlat` | kernel/src/editor.c:55-136 | lines joined and split again are the lines |
| `Editor.Editor.Insert` | kernel/src/editor.c:153-172 | a splice of the flat text, or only a message |
| `Editor.Editor.Newline` | kernel/src/editor.c:174-201 | a splice of the flat text by a line break, or only a message |
| `Editor.Editor.Backspace` | kernel/src/editor.c:203-244 | the character before the cursor is taken out, a line break included, or only a message |
| `Editor.Editor.Move` | kernel/src/editor.c:246-278 | the cursor stays on a line and inside it, and the view moves no further than it must to show it |
| `Editor.Editor.Load` | kernel/src/editor.c:55-99 | the lines that fit, each as much of it as fits |
| `Editor.Honest` | kernel/src/editor.c:55-99 | it says that not all fitted if and only if the text differs |
| `Editor.Editor.TextInto` | kernel/src/editor.c:101-136 | complete exactly when text and terminator fit, and what the buffer holds either way |
| `Editor.UnterminatedExactly` | kernel/src/editor.c:101-136 | a buffer too short is left without a terminator if and only if it ran out at a line break, past its first place, where no terminator stood |
| `Editor.Unterminated` | kernel/src/editor.c:101-136 | a text and a buffer of two for which that happens |

## Left out

- Crash consistency of a save stopped half way: the code promises none.
- The `changes` counter of the filesystem, and `vfs_write` and `vfs_append`, which only measure a C string first.
- NULL arguments and the refusals for them, except where a missing disk or variable table is an outcome of its own.
- A disk is an array of sectors, each of which answers or does not; partial transfers are not modelled.
- Which bytes lie outside the node table: a climb that leaves it reads an arbitrary function, and nothing is claimed of it but that the outcome does not depend on it.
- VmmSpace.Map: the address is in the lower half, as the kernel's use of user mappings is; mapping and unmapping in the kernel half is not modelled, and neither are address spaces adopted from the bootloader.
- VmmSpace.Unmap: the address is in the lower half, for the same reason.
- Process.AddPageAt: canonical upper-half addresses are not modelled; its callers are the loader, which has refused them, and the two fixed pages of a program.
- Processes.ProcessTable.AddPage: the address is no canonical one of the upper half, for the same reason.
- Processes.ProcessTable.Run: neither is that of any add-page step of a run.
- Frames are below 2^40, so addresses are below 2^52, and flags carry no address bits.
- `vmm_flush` does nothing in the model, and the direct-map offset is left out: a frame is reached by its number.
- Process names and the counter of process identifiers, running, trapping and stopping a process, and the `ready` flag of the boot code.
- `process_add_page_at` with no contents and a count that is not zero.
- The random choice of mined squares: the squares are a parameter, as many and as distinct as the loop leaves them, and the first square clicked is not among them.
- Rect.MovingRect.Advance: signed 64-bit sums that overflow, in C undefined; the precondition is exactly that those the call works out fit, and `Rect.SplitFits` carries it through the splitting law, which is stated for times that fit in 64 bits. Dragging is not modelled.
- Tile and region arithmetic is over unbounded integers; 64-bit overflow of coordinates is not modelled.
- `calc_key`, `calc_line` and `calc_format`: building and showing the line.
- Window events and pointer capture; the bytes of a title beyond its length.
- A window holds its picture by value, not by pointer, so a surface changed after it was attached is attached again in the model.
- Surface.BlitClipped: the source shares no memory with the target.
- Compositor.ComposeRegion: the target shares no memory with the pictures of the windows.
- Surface primitives other than filling and the clipped blit, and the check of a buffer's size against the largest `size_t`.
- `desktop_init` refusals, `desktop_remove`, switching and moving between workspaces, hiding and stepping the focus.
- Drawing the editor, its path, and a move by the smallest 32-bit number.
- The shell and its commands, terminal, other games, drivers, interrupts, floating point and boot self checks.
