# A verified model of xv6-sh4a

xv6 is a small Unix kernel; this repository ports it to the SH4A processor. The project
models the parts of it whose correctness rests on invariants that span many functions and
are never written down, and proves those invariants and what follows from them.

| part | files | main results |
|---|---|---|
| file system on disk | `FsVolume`, `FsBytes`, `FileSystem`, `FsDir` | every file is a plain byte sequence and every directory a map, although all share one bitmap, block pool, buffer cache and inode cache; a bitmap bit is set exactly when one owner refers to the block; free blocks are zero; unlocked inodes agree with the disk |
| calls on disk | `FsTree`, `FsNames`, `FsCalls` | sys_link, sys_unlink and create, from path names to blocks, take the disk and its inode cache to what the tree of link counts and references says, and panic exactly when that does or a cache entry is wanting |
| buffer cache | `BufferCache` | the ring stays a two-way linked permutation in order of release, `bread` is a direct disk read, the victim is the buffer released longest ago |
| names and link counts | `Paths`, `Walks`, `Links`, `Sysfile`, `SysfileCalls` | where every path leads, as chains of entries; in every run of system calls each link count equals the number of entries that name the inode, exactly as long as no entry is added under a removed directory and no counter overflows |
| user heap | `UserMalloc` | the free list is one address-ordered, fully coalesced cycle; no unit is lost; `malloc` ends and grows the heap at most once |
| pages | `Vm` | no physical page has two uses; which addresses are mapped after growing, shrinking and copying, for sizes that need not be whole pages; what is lost, copied, freed and restored is determined exactly, out-of-memory paths included; the TLB holds true translations, and exactly which |
| processes | `Proc` | no lost wakeup in `wait`, parents are alive, bounded overtaking by the scheduler |
| pipes | `Pipe` | bytes come out in the order they went in, over every interleaving and across counter wrap-around; who can be asleep beside a pipe that is ready, and exactly when that goes wrong |
| shell | `Shell`, `ShellParser`, `ShellPrint`, `ShellGrammar`, `ShellBalance` | the parser accepts exactly the lines of a grammar, with any blanks, and gives them the trees of the grammar; printing a command tree and parsing it gives the tree back; words survive the NULs written into the shared buffer; accepted parentheses are properly nested |
| grep | `Grep` | `match` decides a declarative meaning of patterns |

Code that updates things in place is modelled by classes, arrays and loops; each method is
proved against a function or predicate on values, and the laws are lemmas about those.
`Common` holds the shared option type and constants. `dafny verify dfyconfig.toml` checks
the project.

Where the code does not do what one would expect, the model follows the code, and the
exact condition is proved:

- A write that a killed process abandons on a full pipe returns without waking the reader
  (pipe.c:82-86). `Pipe.StepReaders` gives the condition both ways and
  `Pipe.ReaderLeftAsleep` a run that meets it.
- A file made in a directory that has been removed but is still some process's current
  directory has a link count of 1 and no entry that counts (sysfile.c:212-254).
  `Sysfile.CallKeeps` gives the condition both ways and `Sysfile.MadeInRemoved` the case.
- A failed `mappages` loses the page it was to map (vm.c:262, vm.c:337). `Vm.LosesWhen` says when: exactly when
  the free pages run out at a page whose table is missing, one page being left for it. `allocuvm` then still
  reports success if that was the last page wanted, and a later fork panics over the page that is not there
  (vm.c:329-332): `Vm.GrowWithOnePage` and `Vm.LostPageThenPanic` are such cases.
- `>>` opens its file as `>` does (sh.c:389-391), see `ShellPrint.DoubleArrow`.
- `balloc` scans whole bitmap blocks and returns a block past the end of the image exactly when all
  blocks of the image are taken and the bitmap goes on (fs.c:62-72): `FsVolume.ClearPastEnd`, and `FsVolume.FullImageGivesPastEnd`
  for a full image of any such size, the 1024 blocks of mkfs among them. For files the model takes that as running
  out of blocks, see `FileSystem.Fs.TakeBlock`.

## Model

| member | source | states |
|---|---|---|
| `FsVolume.LayoutDisjoint` | mkfs.c:81-83 | inode blocks, bitmap blocks and data blocks never overlap |
| `FsVolume.WordAfterPut` | fs.c:334-341 | an address stored in an indirect block is read back, and no other entry of the block changes |
| `FsVolume.BitMeansUsed` | fs.c:53-97 | under the invariant a bitmap bit is set if and only if the block is metadata or some slot of some inode refers to it |
| `FsVolume.ReferencesAreDistinct` | fs.c:319-347 | no block is referred to twice, by one inode or by two, as data or as indirect block |
| `FsVolume.NotIndirect` | fs.c:366-373 | the indirect block is none of the blocks it lists, so freeing those leaves the held buffer as it is |
| `FsVolume.StoreData` | fs.c:438-444 | writing a data block keeps the invariant and changes that block of that file and no other file |
| `FsVolume.LinkDirect` | fs.c:325-329 | a free block linked into the next direct slot: one more zero block at the end of that file, all other files as they were, invariant kept |
| `FsVolume.LinkIndirect` | fs.c:337-343 | the same through an indirect block that is there |
| `FsVolume.LinkFirstIndirect` | fs.c:332-343 | the same when the indirect block itself is taken first: being a free block it is zero and so holds no addresses |
| `FsVolume.FreeOneMore` | fs.c:357-374 | truncation frees slots one by one: the bit of each block it reaches is still set, so "freeing free block" cannot happen |
| `FsVolume.Released` | fs.c:352-380 | once all slots are freed the invariant holds again and no other file has changed |
| `FsVolume.FreeCountTake` | fs.c:53-76 | taking a free block lowers the number of free blocks by one |
| `FsVolume.FreeCountZero` | fs.c:53-76 | the number of free blocks is 0 if and only if every bit is set |
| `FsVolume.ClearPastEnd` | fs.c:62-72 | the block handed out lies past the first n if and only if none of those is free |
| `FsVolume.FullImageGivesPastEnd` | fs.c:62-72 | on a full image whose size does not fill its bitmap, such as the 1024 blocks of mkfs, the next block handed out is the one just past its end |
| `FsBytes.SpliceReadsBack` | fs.c:394-451 | a write over a byte sequence is read back where it was made, leaves the bytes around it, and grows the sequence to the larger of the two lengths |
| `FsBytes.SliceOfBlock` | fs.c:408-415 | the bytes of a file within one block are the slice of that block |
| `FsBytes.ChunkKeepsWritten` | fs.c:438-444 | one round of the write loop extends what has been written by its chunk, byte for byte, and nothing else |
| `FsBytes.GrownKeepsWritten` | fs.c:438-444 | a block that the file gains during a write shows only zeros beside what is written |
| `FsBytes.WriteDone` | fs.c:421-451 | a finished write: the contents are the old ones with the data spliced in, every other inode and its contents are unchanged, no holes, zeros after the end |
| `FsBytes.TruncDone` | fs.c:352-380 | a truncation empties one file and leaves the contents of all others |
| `FsBytes.FreeInodeEmpty` | fs.c:158-163 | a free inode refers to no block, so clearing it loses none |
| `FsBytes.BlankImageOk` | mkfs.c:81-91 | an image before any file is put on it satisfies all that mounting asks for |
| `FileSystem.EditLocked` | fs.c:319-347 | changing a locked inode in memory only keeps the cache coherent |
| `FileSystem.LoadEntry` | fs.c:236-265 | whenever an entry is not locked the disk has the current inode, so loading is lossless |
| `FileSystem.Unlocked` | fs.c:268-300 | an entry that agrees with the disk can be unlocked or dropped |
| `FileSystem.FreshEntry` | fs.c:214-220 | an unused cache entry can be given to an inode that is not cached |
| `FileSystem.Fs.Mount` | fs.c:137-141 | the starting state: an image without holes below any size, nothing cached |
| `FileSystem.Fs.BAlloc` | fs.c:53-76 | the lowest clear bit of the whole bitmap is taken, none only when all are set; it lies past the end of the image if and only if no block of the image is free |
| `FileSystem.Fs.TakeBlock` | fs.c:53-76 | a block of the image is found if and only if one is free |
| `FileSystem.Fs.ReadBlock` | fs.c:412-415 | a read through the buffer cache gives the block on disk |
| `FileSystem.Fs.PatchBlock` | fs.c:439-443 | bread, memmove, bwrite and brelse change one block on disk by the chunk |
| `FileSystem.Fs.HoldBlock` | fs.c:336-337 | the held buffer of the indirect block has what the disk has |
| `FileSystem.Fs.StoreBlock` | fs.c:339-340 | a change of the held buffer is written through to that block and no other |
| `FileSystem.Fs.BFree` | fs.c:79-97 | the block is zeroed through the cache and its bit cleared, also while a buffer is held for another block, which stays as it is |
| `FileSystem.Fs.BMap` | fs.c:319-347 | the address of a block the file has, with nothing changed; or the file grows by one zero block, succeeding exactly when enough blocks are free |
| `FileSystem.Fs.BMapDirect` | fs.c:325-330 | the same for direct blocks |
| `FileSystem.Fs.BMapIndirect` | fs.c:331-345 | the same through the indirect block, which may have to be made |
| `FileSystem.Fs.IUpdate` | fs.c:171-187 | the disk gets the current inode |
| `FileSystem.Fs.ReadI` | fs.c:394-418 | exactly the slice of the contents at the offset, cut at the end of the file; -1 exactly past the end or on overflow; nothing changes |
| `FileSystem.Fs.WriteI` | fs.c:421-451 | the contents become the old ones with the data spliced in, clipped to the largest file; no other inode changes; -1 exactly past the end or on overflow; disk copy current although only growth writes the inode; succeeds exactly when the blocks suffice, and how many it takes |
| `FileSystem.Fs.ITrunc` | fs.c:352-380 | the file is empty, its blocks are free, all other files keep their contents |
| `FileSystem.Fs.IGet` | fs.c:191-222 | the one entry for an inode, in use or free, with a reference more; else the first unused entry; none if and only if all are in use for others |
| `FileSystem.Fs.IDup` | fs.c:226-233 | a reference more on an inode that is held |
| `FileSystem.Fs.ILock` | fs.c:236-265 | the locked entry holds the current inode, however often it was dropped and reloaded; a busy one is left as it is and must be waited for; a free inode is a panic |
| `FileSystem.Fs.IUnlock` | fs.c:268-278 | an inode whose changes are on disk is unlocked and all invariants hold |
| `FileSystem.Fs.IPut` | fs.c:281-300 | a reference less; the inode is freed with all its blocks if and only if it was the last reference and there are no links; no other contents change |
| `FileSystem.Fs.IAlloc` | fs.c:146-168 | the lowest free inode, if and only if there is one, cleared on disk and in memory |
| `FsDir.NameCmp` | fs.c:455-459 | names are equal when their first 14 bytes up to a NUL are |
| `FsDir.CanonIs` | fs.c:455-459 | the name compared is the longest beginning of at most 14 bytes without a NUL |
| `FsDir.FieldRoundTrip` | fs.c:517-518 | a name stored in an entry reads back as the name |
| `FsDir.LinkedMap` | fs.c:510-520 | an entry written in an unused place adds exactly one name to the map, keeps names unique and all other entries in their places |
| `FsDir.ErasedMap` | sysfile.c:194-196 | a zeroed entry removes exactly one name from the map |
| `FsDir.OnlyDots` | sysfile.c:148-161 | with "." and ".." in the first two places the scan from the third says whether any other name is there |
| `FsDir.ScannedBlock` | fs.c:473-488 | scanning a whole block gives the answer of a scan bounded by the size, because bytes past the end are zero |
| `FsDir.DirLookup` | fs.c:464-493 | the first entry with the name, its inode number and offset, or nothing if and only if the map has no such name (the reference is taken in `FsNames.GetI`) |
| `FsDir.IsDirEmpty` | sysfile.c:148-161 | whether every entry from the third on is unused |
| `FsDir.DirLink` | fs.c:496-523 | -1 and no change if and only if the name is there; else the map gains exactly that name; all other files unchanged |
| `FsDir.EraseEntry` | sysfile.c:194-196 | the map loses exactly that name; no inode and no other contents change |
| `FsTree.EntryAdded` | fs.c:496-523 | a name added to a directory on disk is an entry added to the tree, the dots staying in the first two places |
| `FsTree.EntryErased` | sysfile.c:194-196 | an entry zeroed on disk is an entry removed from the tree |
| `FsTree.InodeTaken` | fs.c:146-168 | a free inode taken on disk is one taken in the tree, without links and entries |
| `FsTree.InodeFreed` | fs.c:281-300 | an inode freed on disk is freed in the tree, entries and all |
| `FsTree.EmptyShown` | sysfile.c:148-161 | the scan of a directory on disk says whether the tree has only the dots there |
| `FsTree.AddName` | fs.c:496-523 | dirlink on disk: -1 if and only if the tree has the name, else the tree with the entry, succeeding exactly when there is room |
| `FsTree.TakeInode` | fs.c:146-168 | ialloc on disk takes the lowest free inode of the tree, if and only if there is one, and no file changes |
| `FsTree.TryLock` | fs.c:236-265 | locking gives the inode that the tree has, a panic if and only if it is free there |
| `FsTree.Get` | fs.c:485-487 | the reference that dirlookup takes, on the one cache entry of the inode; none if and only if all entries are in use for others |
| `FsTree.Drop` | fs.c:281-300 | the last reference frees a loaded inode without links, in the tree as on disk; nothing else changes |
| `FsTree.MakeDots` | sysfile.c:241-247 | a new directory gets its dots if and only if a block is free, and takes that one |
| `FsTree.MakeOnDisk` | sysfile.c:232-250 | create on disk is the step of the tree with the lowest free inode; it succeeds if and only if there is one, a cache entry for it, room for the name and, for a directory, a block more; all counts on disk stay right if and only if the directory is linked and, for a directory, the counter has room |
| `FsTree.FreshDisk` | mkfs.c:95-106 | a blank image always takes a root directory and then shows the tree that every run starts from |
| `FsNames.NoneLeft` | fs.c:191-222 | iget panics if and only if as many inodes as there are cache entries are referred to, and not this one |
| `FsNames.GetI` | fs.c:191-222 | iget on disk is a reference more in the state |
| `FsNames.PutI` | fs.c:281-300 | iput on disk, of a locked or an unloaded inode too, is a reference less in the state, with the end of the inode exactly when the state says so |
| `FsNames.TouchI` | fs.c:504-506 | a reference taken by a lookup and dropped unloaded leaves disk and references as they were |
| `FsNames.StepInto` | fs.c:577-593 | one round of the walk: lock, test, look up, let go, as the tree says |
| `FsNames.NameX` | fs.c:567-600 | a walk on disk ends where the tree says, with one reference taken and no other change; it panics for want of a cache entry if and only if some step of the walk on the tree needs one that is not there |
| `FsNames.TwoEntriesDo` | fs.c:567-600 | with two entries to spare no walk panics for that |
| `FsCalls.DirLinkI` | fs.c:496-523 | dirlink with the reference that its lookup takes: -1, success and panic each exactly when the state says so |
| `FsCalls.LinkOnDisk` | sysfile.c:109-145 | sys_link on disk: result and state of `Sysfile.Link`, with room exactly if the directory on disk has it; it panics if and only if that does or a cache entry is wanting; the counts stay right if and only if the directory is linked and the counter has room |
| `FsCalls.UnlinkOnDisk` | sysfile.c:163-210 | sys_unlink on disk: result and state of `Sysfile.Unlink`, the inode freed with its blocks exactly when nothing else holds it; it panics if and only if that does or a cache entry is wanting; the counts stay right always |
| `FsCalls.CreateOnDisk` | sysfile.c:212-254 | create on disk: result and state of `Sysfile.Create`, the inode locked; it panics if and only if that does or a cache entry is wanting; exactly when the counts stay right |
| `FsCalls.OpenOnDisk` | sysfile.c:270-272 | opening what is there on disk: result and state of `Sysfile.Open`; nothing on disk changes |
| `FsCalls.ThreeEntriesDo` | fs.c:211-212 | with three cache entries to spare none of these calls panics for want of one |
| `FsCalls.Boot` | mkfs.c:95-106 | a new disk stands for the starting state with the root held, so that all the calls can be made on it |
| `BufferCache.Pushed` | bio.c:47-54 | a buffer linked in behind the head, prev and next inverse |
| `BufferCache.Unlinked` | bio.c:125-126 | a buffer taken out of its place |
| `BufferCache.MovedToFront` | bio.c:125-130 | the six assignments of a release, in their order, move one buffer to the front and keep the ring |
| `BufferCache.ReleasedFirst` | bio.c:117-136 | the ring is in order of last release |
| `BufferCache.Recycled` | bio.c:83-91 | giving an idle buffer to a sector that is not cached keeps sectors cached at most once |
| `BufferCache.Cache.BInit` | bio.c:39-56 | the ring holds all NBUF buffers, none valid |
| `BufferCache.Cache.IdeRW` | ide.c:31-73 | a dirty buffer is written, another read; afterwards buffer and sector are equal |
| `BufferCache.Cache.Find` | bio.c:69-79 | the buffer of a sector, or none if and only if no buffer caches it |
| `BufferCache.Cache.Victim` | bio.c:82-92 | the idle buffer released longest ago, none if and only if all are busy |
| `BufferCache.Cache.BGet` | bio.c:61-93 | a buffer that was idle and is now held for the sector, the cached one or the least recently used; else the buffer to sleep on, or none left |
| `BufferCache.Cache.BRead` | bio.c:96-104 | the held buffer has what a direct read of the disk gives |
| `BufferCache.Cache.BWrite` | bio.c:107-114 | the sector on disk becomes the buffer's data and no other changes |
| `BufferCache.Cache.BRelse` | bio.c:117-136 | the buffer is idle and first in the ring, the others keep their order, all invariants hold |
| `BufferCache.Cache.Acquire` | bio.c:96-104 | beside at most one held buffer of another sector there is always a buffer, and no need to sleep |
| `BufferCache.Cache.Store` | bio.c:107-114 | a change of a held buffer is written to its sector and no other |
| `BufferCache.Cache.ReadSector` | bio.c:96-136 | bread and brelse together are one read of the disk |
| `BufferCache.Cache.WriteSector` | bio.c:96-136 | bread, a change, bwrite and brelse together are one write of the disk, also beside a held buffer, which stays as it is |
| `Paths.SkipElem` | fs.c:539-562 | the first element and the rest of the path, which is empty exactly when no element is left; none exactly when the path has no element |
| `Paths.ElementsOfPieces` | fs.c:525-562 | pieces of any length written with any numbers of slashes before, between and after them are the elements of that path, each cut to 14 characters |
| `Paths.EveryPathIsWritten` | fs.c:525-562 | every path is some pieces written so |
| `Paths.ElementsOfWritten` | fs.c:525-537 | names written so come back as they are |
| `Walks.WalkFinds` | fs.c:577-593 | a walk ends at an inode if and only if there is a chain of directories, each with the next name leading to the next, from the start to it |
| `Walks.WalkStops` | fs.c:577-593 | a walk finds nothing if and only if such a chain breaks off at something in use, and panics if and only if at a free inode |
| `Walks.WhereItLeads` | fs.c:567-600 | a path leads from the root if it begins with a slash and else from the current directory, along such a chain over its elements; both failures too |
| `Walks.WhereItsParentIs` | fs.c:584-588 | the parent of a path is the directory that all its elements but the last lead to; a path without elements has none |
| `Walks.WrittenLeads` | fs.c:567-600 | the same for names written as a path with any numbers of slashes |
| `Walks.SlashIsRoot` | fs.c:572-573 | a path of slashes is the root, wherever it is looked up |
| `Paths.ElementsAreNames` | fs.c:550-555 | every element of every path is a name of 1 to 14 characters without slash |
| `Links.LinkCounts` | sysfile.c:121-131 | a new link keeps every count right if and only if its directory is still linked and the 16-bit counter has room |
| `Links.FileCounts` | sysfile.c:231-249 | a new file keeps every count right if and only if its directory is still linked |
| `Links.DirCounts` | sysfile.c:231-249 | a new directory keeps every count right if and only if its parent is still linked and the parent's counter has room |
| `Links.DirShaped` | sysfile.c:240-249 | directories stay a tree: one name each, in the directory that their ".." names |
| `Links.EmptyNamedOnce` | sysfile.c:186-207 | an empty directory is named once, so unlinking it brings its count to 0 |
| `Links.ParentKeepsLink` | sysfile.c:197-200 | the parent of a removed directory still has a link |
| `Links.RemoveFileSound` | sysfile.c:194-207 | removing the name of a file keeps counts and tree |
| `Links.RemoveDirCounts` | sysfile.c:194-207 | removing an empty directory keeps every count, its ".." no longer counted |
| `Links.RemoveDirShaped` | sysfile.c:194-207 | removing an empty directory keeps the tree |
| `Links.FreeSound` | fs.c:281-300 | freeing an inode without links keeps counts and tree, so no counted entry names a free inode |
| `Sysfile.WalkStaysLinked` | fs.c:567-600 | from a linked directory every path leads to linked inodes only, so the walk never locks a free inode |
| `Sysfile.LinkKeeps` | sysfile.c:109-145 | sys_link succeeds if and only if the old name is a live file, the new one absent and there is room; failing changes nothing; succeeding keeps the counts if and only if the target directory is linked and the counter has room |
| `Sysfile.CreateKeeps` | sysfile.c:212-254 | create makes an inode if and only if the name is absent, an inode free and there is room; else the tree is unchanged; a new inode keeps the counts if and only if its directory is linked and, for a directory, the counter has room |
| `Sysfile.UnlinkKeeps` | sysfile.c:163-210 | sys_unlink keeps everything always, and its "nlink < 1" panic cannot happen |
| `Sysfile.PutDoes` | fs.c:281-300 | a reference less; the last one to an inode without links ends it and the entries in it, and nothing else |
| `Sysfile.LinkDoes` | sysfile.c:109-145 | the new entry leads to the file of the old name and its count is one more, with 16-bit wrap-around; nothing else changes; when it panics |
| `Sysfile.UnlinkDoes` | sysfile.c:163-210 | it succeeds if and only if the name is no dot, is there, and leads to a file or an empty directory; then exactly that entry is gone and its link, for a directory also one of its parent, and the inode with its entries if and only if it has no other name and no reference; all else stands |
| `Sysfile.CreateDoes` | sysfile.c:212-254 | on a name that is there it gives a file when a file is wanted and else fails; on one that is not, the lowest free inode with one link under the name, with dots and a link more on the parent for a directory; nothing else changes; when it panics |
| `Sysfile.OpenDoes` | sysfile.c:270-272 | it succeeds if and only if the path leads to an inode in use, and takes one reference to it |
| `Sysfile.CallKeeps` | sysfile.c:109-254 | every call keeps the link counts if and only if, in the state before it, it is not one that gets to add an entry under an unlinked directory or to overflow a counter |
| `Sysfile.RunKeeps` | sysfile.c:109-254 | in every run of such calls each count equals the number of entries naming the inode, unnamed inodes live exactly while held, and no counted entry names a free inode |
| `Sysfile.BlankValid` | mkfs.c:95-106 | a disk with only the root directory satisfies the invariant |
| `Sysfile.MadeInRemoved` | sysfile.c:212-254 | a file made in a removed directory that is still in use has count 1 and no counted entry |
| `SysfileCalls.Names.IPut` | fs.c:281-300 | a reference less, and the end of the inode with its entries when that was the last and no name is left |
| `SysfileCalls.Names.NameX` | fs.c:567-600 | what the path, or its parent directory, is on the tree, with one reference taken and no other change |
| `SysfileCalls.Names.LinkCall` | sysfile.c:109-145 | the result and state of the specification, although the count is raised first and lowered again on failure |
| `SysfileCalls.Names.UnlinkCall` | sysfile.c:163-210 | the result and state of the specification, references included |
| `SysfileCalls.Names.FindFree` | fs.c:155-166 | the lowest free inode |
| `SysfileCalls.Names.CreateCall` | sysfile.c:212-254 | the result and state of the specification, references included |
| `UserMalloc.GiveBack` | umalloc.c:24-44 | a block given back and coalesced: nothing overlaps, nothing adjacent stays apart, free and allocated units are together those obtained |
| `UserMalloc.TakeTail` | umalloc.c:75-83 | a block or its tail taken: the same |
| `UserMalloc.Obtain` | umalloc.c:54-59 | new memory joins the heap without touching what is there |
| `UserMalloc.FreeIsDetermined` | umalloc.c:24-90 | the free blocks are determined by the memory obtained and the blocks allocated: they are the gaps |
| `UserMalloc.ListAfterFree` | umalloc.c:33-42 | the assignments of free leave one address-ordered cycle of the coalesced blocks |
| `UserMalloc.ListAfterUnlink` | umalloc.c:76-77 | taking a whole block leaves the cycle of the others |
| `UserMalloc.StopsAtPlace` | umalloc.c:30-32 | the search stops at the last node before the block and nowhere else, also where the addresses wrap around |
| `UserMalloc.ScannedAll` | umalloc.c:74-88 | a scan that is back at its start has seen every free block |
| `UserMalloc.Heap.Search` | umalloc.c:30-32 | the search ends at the node before the block |
| `UserMalloc.Heap.Free` | umalloc.c:24-44 | the block is free again within a coalesced one, all other blocks and the memory obtained are unchanged |
| `UserMalloc.Heap.MoreCore` | umalloc.c:46-61 | the memory granted is in the list and a block of the wanted size fits, even when merged into the block before |
| `UserMalloc.Heap.Take` | umalloc.c:75-84 | the end of the found block, of exactly the wanted size, is allocated |
| `UserMalloc.Grown` | umalloc.c:52-53 | at least what is wanted and at least 4096 units are asked for, and no more than the larger |
| `UserMalloc.NUnits` | umalloc.c:69-69 | the units for a request hold a header and all its bytes, with less than one unit to spare |
| `UserMalloc.Heap.Malloc` | umalloc.c:63-90 | a new block of the right size, the end of the first free block after `freep` in the list that is big enough; the heap grows at most once and only if nothing fits; fails exactly if nothing fits and no memory is granted |
| `Vm.NoPageTwice` | vm.c:29-75 | no page is referred to from two places among free list, directories and tables |
| `Vm.MappedIsRole` | vm.c:29-51 | a directory maps a page at an address if and only if that is the page's one role |
| `Vm.WordFacts` | vm.c:347-353 | an entry word is 0 if and only if nothing is mapped, and else is the page's address and permission bits put together again |
| `Vm.BecomeTable` | vm.c:39-49 | a fresh zeroed page becomes a table and no page changes its role besides |
| `Vm.BecomeUser` | vm.c:63-68 | a page becomes the one mapped by an empty entry and no other role changes |
| `Vm.Unmap` | vm.c:277-284 | a cleared entry frees its page and no other |
| `Vm.SucceedsWhen` | vm.c:254-263 | mapping a range succeeds if and only if there is a free page for each page and for each table that is missing |
| `Vm.LosesWhen` | vm.c:262-262 | a page is lost if and only if the free pages run out, one being left, at a page whose table is missing; and whether that is the last page of the range |
| `Vm.OutcomeWhen` | vm.c:247-265 | both conditions together, for the allocation loops |
| `Vm.LastPageLost` | vm.c:247-265 | with one free page and no table every growth loses that page |
| `Vm.GrowWithOnePage` | vm.c:247-265 | growing by one page with one free page is reported as success with nothing mapped; by more it fails; the page is lost either way and nothing else changes |
| `Vm.LostPageThenPanic` | vm.c:319-345 | from boot with three pages: a growth reported as success, then a copy that panics over the page never mapped |
| `Vm.GrewMeans` | vm.c:247-265 | after growing, new pages are mapped at their places, were free, and hold what they should; all else is mapped as before |
| `Vm.ShrunkMeans` | vm.c:271-287 | after shrinking, nothing is mapped in the range and all else as before |
| `Vm.PagesUp` | mmu.h:43-43 | the pages for a size hold all its bytes, and one fewer would not |
| `Vm.GrewBytes` | vm.c:247-265 | after growing without a loss, exactly the pages that hold an address below the new size and none below the old one are new, zero and were free; every other address is mapped as before |
| `Vm.ShrunkBytes` | vm.c:271-287 | after shrinking, exactly the pages that begin at or after the new size and before the old one are unmapped |
| `Vm.CopyBytes` | vm.c:319-345 | after copying, exactly the pages that hold an address below the size are mapped, with the contents of the source in pages that were free |
| `Vm.OtherDirSame` | vm.c:247-345 | other address spaces keep their mappings and contents |
| `Vm.Machine.KInit` | kalloc.c:25-37 | every page from first to top is on the free list |
| `Vm.Machine.KFree` | kalloc.c:43-59 | the page is first on the free list and filled with junk behind its link |
| `Vm.Machine.KAlloc` | kalloc.c:64-78 | the first free page, 0 if and only if there is none |
| `Vm.Machine.SetupKvm` | vm.c:110-127 | a new empty directory in a free page, 0 if and only if there is none |
| `Vm.Machine.WalkPgDir` | vm.c:29-51 | the table for an address, made zeroed when wanted; 0 exactly when there is none and none can be made |
| `Vm.Machine.MapPage` | vm.c:56-75 | the page is mapped, at most one table added; fails exactly when a table is needed and there is no memory |
| `Vm.Machine.DeallocUvm` | vm.c:271-287 | exactly the pages mapped between the two sizes, byte-exact as in `ShrunkBytes`, go back to the free list; nothing if the new size is not smaller |
| `Vm.Machine.AllocUvm` | vm.c:247-265 | zeroed pages up to the new size, byte-exact as in `GrewBytes`, or 0 and every address mapped as before; it fails, and a page is lost, exactly under conditions on the number of free pages and the missing tables before the call |
| `Vm.Machine.FreeVm` | vm.c:291-313 | all that a directory owns, and nothing else, becomes free |
| `Vm.Machine.CopyUvm` | vm.c:319-345 | a new address space with equal bytes in pages that were free, byte-exact as in `CopyBytes`; or 0 and everything as before but for a lost page; or a panic over a page that is not mapped: each exactly under conditions on the free pages and the first unmapped page before the call |
| `Vm.Tlb.SwitchUvm` | vm.c:154-190 | the TLB is loaded from the mapped pages in order, no mapping changes |
| `Vm.TlbTrue` | vm.c:347-359 | every TLB entry takes the address of a mapped page to the page that the page table has there, with the permission bits of the entry |
| `Vm.TlbHolds` | vm.c:174-181 | the TLB has a page if and only if it is one of the last 64 mapped, in the slot of its index modulo 64; so all of them when there are no more than 64 |
| `Proc.PTable.Wakeup1` | proc.c:450-462 | every sleeper on the channel, whatever it is, becomes runnable and changes in nothing else; all other processes stand |
| `Proc.PTable.AllocProc` | proc.c:70-114 | the first unused slot becomes an embryo with the next pid, none if and only if all are used; without memory for a kernel stack it is unused again but keeps the pid |
| `Proc.PTable.Exit` | proc.c:225-240 | zombie, children given to init, parent and init woken as they must be |
| `Proc.PTable.WaitRound` | proc.c:257-288 | the first zombie child is reaped if there is one; else failure exactly when childless or killed; else sleep |
| `Proc.PTable.Kill` | proc.c:476-494 | the first slot with the pid is marked and woken, -1 if and only if there is none |
| `Proc.PTable.Dispatch` | proc.c:312-324 | the next runnable slot from the scan position on starts running |
| `Proc.WakeupStep` | proc.c:450-471 | the same for the step of the machine: nobody is left asleep on the channel |
| `Proc.KillStepDoes` | proc.c:476-494 | the first slot with the pid is marked and, if asleep, runnable; nothing else changes |
| `Proc.ExitStep` | proc.c:225-243 | what becomes of every slot when a process exits: parent, state and nothing else |
| `Proc.WhoRuns` | proc.c:312-340 | whoever runs goes on unless it exits, sleeps, waits in vain or yields; dispatch starts a process that was runnable and clears what it slept on |
| `Proc.SetExited` | proc.c:225-240 | exiting leaves no child without a live parent and no waiter asleep over a zombie |
| `Proc.StepInv` | proc.c:161-494 | every step of every process and of the scheduler keeps the invariant |
| `Proc.RunInv` | proc.c:161-494 | the invariant holds throughout every run from boot |
| `Proc.NoLostWakeup` | proc.c:247-289 | in every run, a process asleep in wait has no zombie child |
| `Proc.ParentsLive` | proc.c:205-243 | in every run, every parent is neither unused nor a zombie, and one process runs at most |
| `Proc.ScanAdvances` | proc.c:312-340 | while a process stays runnable the scan moves towards it only |
| `Proc.NoSecondTurn` | proc.c:298-343 | while a process is runnable and waits, no other slot is dispatched twice |
| `Proc.StaysRunnable` | proc.c:298-343 | a runnable process leaves that state only by being dispatched |
| `Pipe.FullEmpty` | pipe.c:82-103 | full and empty are told apart although the counters wrap |
| `Pipe.PutAppends` | pipe.c:90-90 | storing a byte appends it to the buffered bytes, across wrap-around |
| `Pipe.TakeRemoves` | pipe.c:111-113 | reading a byte removes the oldest, across wrap-around |
| `Pipe.PutAllAppends` | pipe.c:81-91 | a turn of writing appends as many bytes as there is room for, in order |
| `Pipe.TakeAllRemoves` | pipe.c:110-114 | a turn of reading removes the oldest bytes, in order |
| `Pipe.Pipe.WriteTurn` | pipe.c:75-95 | one turn of pipewrite: what is stored, and whether it is done, fails or sleeps |
| `Pipe.Pipe.ReadTurn` | pipe.c:97-118 | one turn of piperead: what is taken, and whether it is done, fails or sleeps |
| `Pipe.WriteTurnDoes` | pipe.c:75-95 | a writer's turn in the machine: as many bytes as there is room for, and who leaves, sleeps and is woken |
| `Pipe.ReadTurnDoes` | pipe.c:97-118 | a reader's turn in the machine: the oldest bytes, and who leaves, sleeps and is woken |
| `Pipe.StepOrder` | pipe.c:57-118 | every locked section keeps the order of bytes and leaves no writer asleep beside room |
| `Pipe.StepReaders` | pipe.c:57-118 | a section leaves no reader asleep beside bytes if and only if it is not a killed write leaving a full pipe |
| `Pipe.RunOrder` | pipe.c:57-118 | in every interleaving, bytes read then bytes buffered are the bytes written, at most 512 are buffered, and a sleeping writer faces a full, open pipe |
| `Pipe.RunReaders` | pipe.c:57-118 | in every interleaving up to such a write, a sleeping reader faces an empty, open pipe |
| `Pipe.ReaderLeftAsleep` | pipe.c:82-86 | a run in which such a write leaves a reader asleep beside a full pipe |
| `Shell.LineGood` | sh.c:343-445 | whatever the input, an accepted command consists of whole words of it, at most 9 per command, and the two kinds of redirection |
| `Shell.WordsSurvive` | sh.c:447-492 | after the NULs are written every word, read as a C string, is its token: none is cut by the NUL of another |
| `Shell.NulTerminate` | sh.c:447-492 | NULs exactly where words end, nothing else changes |
| `ShellParser.Parser.Next` | sh.c:264-307 | the token at the cursor, its span, and the cursor past it |
| `ShellParser.Parser.Peek` | sh.c:309-319 | whether the next character is one of those asked for |
| `ShellParser.Parser.Redirections` | sh.c:373-396 | the redirections that follow, or the panic over a missing file |
| `ShellParser.Parser.Exec` | sh.c:414-445 | the simple command or block at the cursor |
| `ShellParser.Parser.Block` | sh.c:398-412 | the block at the cursor, or the panic over a missing parenthesis |
| `ShellParser.Parser.Pipeline` | sh.c:360-371 | the pipeline at the cursor |
| `ShellParser.Parser.Line` | sh.c:343-358 | the command line at the cursor; ends on every input |
| `ShellParser.ParseCommand` | sh.c:326-341 | panic exactly when the grammar does, and then an untouched buffer; else the command, with every word a C string in the buffer |
| `ShellPrint.PrintedIsParsed` | sh.c:326-445 | every legal command tree, printed with the fewest parentheses that the binding of bar, ampersand and semicolon allows, is parsed back to itself |
| `ShellPrint.ParsedIsPrintable` | sh.c:326-445 | whatever text a command came from, printing its tree and parsing that gives the same tree |
| `ShellPrint.DoubleArrow` | sh.c:389-391 | ">>" opens the file with the same mode and descriptor as ">" |
| `ShellGrammar.AcceptedIsGrammar` | sh.c:326-445 | whatever is accepted is a line of the grammar, over its tokens, with the tree of the grammar |
| `ShellGrammar.GrammarIsAccepted` | sh.c:326-445 | every line of the grammar is accepted with that tree, so the parser decides the grammar and the grammar gives each line one tree |
| `ShellGrammar.CommandComplete` | sh.c:414-445 | words and redirections in any order are the command of all the words in order within all the redirections in order; a panic if and only if there are more than nine words |
| `ShellGrammar.ItemsParsed` | sh.c:414-445 | the same for their text with any blanks as a whole line |
| `ShellGrammar.TokensOfText` | sh.c:264-307 | tokens written with any blanks, some where they would run together, are read back |
| `ShellGrammar.EveryLineIsText` | sh.c:264-307 | every line is its tokens written so |
| `ShellGrammar.WrittenIsAccepted` | sh.c:326-445 | a line of the grammar written with any blanks is accepted with its tree |
| `ShellBalance.AcceptedIsNested` | sh.c:398-412 | no beginning of an accepted line closes more parentheses than it opens, and the whole closes all |
| `Grep.WrittenBack` | grep.c:83-105 | every pattern text is the pieces it is read as, written out, with a "$" behind when anchored |
| `Grep.ReadBack` | grep.c:83-105 | pieces that can be written are read back: "$" elsewhere, "$*" and a leading "*" are characters |
| `Grep.MatchesCons` | grep.c:83-95 | a pattern matches here when a word for its first piece does and the rest matches after it |
| `Grep.MatchesStarStep` | grep.c:97-105 | a starred character takes nothing, or one instance and the star again |
| `Grep.MatchHere` | grep.c:83-95 | true if and only if some prefix of the text is in the language of the pattern, all of it before a final "$" |
| `Grep.MatchStar` | grep.c:97-105 | the same for a starred character before a pattern |
| `Grep.Match` | grep.c:71-81 | true if and only if some substring matches, or some prefix after a leading "^" |

## Left out

- Assembly, interrupts and hardware registers: swtch is a step of the process machine, the TLB an array of 64 slots.
- Spinlocks: a section under a lock is one step; their nesting counts are not modelled.
- exec.c, ELF loading, the console, printf, mkfs as a program, the user programs and the timer: I/O or plumbing.
- Device files: reading and writing through the device table; inodes of devices are excluded by `ReadI` and `WriteI`.
- The bytes of inodes and of the bitmap inside their disk blocks: both are typed values, read and written without the buffer cache; data blocks, indirect blocks and directory entries are bytes and go through it.
- More than one device: the disk ignores the device number.
- Waking a process that sleeps in bget: the call is commented out in brelse, so only safety is stated.
- What sys_open, sys_mkdir and sys_mknod do around create: the test of the mode, the file table and the last unlocking.
- `FsCalls.LinkOnDisk`, `FsCalls.UnlinkOnDisk`, `FsCalls.CreateOnDisk`: ask for a state whose link counts are right; what further calls do once a name has been entered in a removed directory is not stated.
- Concurrent system calls on names: calls run one after another; only processes, pipes and the scheduler are interleaved.
- Whether a directory has room inside create and sys_link, where the kernel panics, is a parameter of `Sysfile`; `FsCalls` says what it is on disk.
- `FileSystem.Fs.Mount`: asks for an image without holes below any size; the root directory that mkfs writes has such a hole when its entries fill a whole number of blocks (mkfs.c:137-140).
- `FsBytes.BlankImageOk`: without the root directory and the files that mkfs adds; `FsTree.FreshDisk` makes the root with the kernel's own routines.
- `FsDir.DirLookup`, `FsDir.DirLink`: without the reference taken on a name that is found; `FsNames.StepInto` and `FsCalls.DirLinkI` have it.
- `FileSystem.Fs.TakeBlock`: a block number past the end of the image, which balloc can return, counts as failure.
- Waiting for a locked inode or a busy buffer: `ILock` and `BGet` report that the caller must sleep, and the sleep itself is not modelled.
- `Vm.Machine.AllocUvm`, `Vm.Machine.DeallocUvm`: not for a size of 0 as the upper end, where subtracting 1 wraps round (vm.c:253, vm.c:275); `DeallocUvm` not for an old size above the user part of memory.
- `Vm.Machine.MapPage`: one page for each call, as all callers ask for.
- `UserMalloc.Heap.Malloc`: sizes do not overflow 32 bits, and what sbrk answers is a parameter.
- Claims that a new process is never marked killed: kill matches slots by pid whatever their state.
- The line-reading driver of grep and the execution of shell commands.
