# The storage and memory spine of the Gramado kernel

These modules model the parts of the kernel that keep state and prove what every run of them keeps.
Each method follows one function of the kernel, branch by branch, and is proved against a function on
values; the theorems are about those functions and about runs of them.

- `Bytes`, `FatTable`, `Directory`, `Volume`: the FAT16 boot volume. The table and the root directory are
  arrays, the disk is a map from LBA to sectors of 512 bytes, and `BootVolume` has the saves and loads of
  `fsSaveFile` and `fsLoadFile`. `VolumeTheorems` has the file-system invariant, the frame conditions and
  the round trip. The layout is that of the FAT32 File System Specification, version 1.03, sections "FAT
  Data Structure" and "FAT Directory Structure".
- `PathWalk`, `PathTheorems`: `fs_load_path` and its exact agreement with a recursive lookup. `PathForms` has the
  three ways in which it loads a file that the path does not name, and `PathLeftovers` an input for the one that
  depends on earlier calls.
- `TreeTheorems`: what runs of saves keep of the directory tree, seen through paths.
- `FileStream`, `StreamTheorems`: the buffered file object and the stream it implements.
- `SocketChannel`: the socket branches of read and write with the system calls that synchronise them, as a
  channel with one slot. Each call is one step; a run is any interleaving of steps.
- `OpenFile`, `OpenTheorems`: opening a file, and the way of its bytes from a save to the read calls. `SharedNames`
  compares the names that open and the path walk look for.
- `Heap`, `HeapTheorems`: the kernel heap. START, END, header size and block limit are parameters.
- `Numerals`, `TextNumbers`, `Printing`: numbers to text and back, and formatted integers.
- `Tokenizer`: `k_strtok_r`, the reentrant form of `strtok`, section 7.24.5.8 of ISO/IEC 9899:2011.
- `Names83`: the in-place conversion of file names.

Assumptions of the volume model: the FAT cache is authoritative between boots; an LBA that was never
written holds zeros; a cluster is one sector; `CLUSTERS_TO_SAVE_MAX` is a parameter with the scan window
inside the table. The root directory cache agrees with the disk after mounting, and this is proved to stay
so. A load requires that its cluster loop ends inside table and buffer; this is proved for every file of a
consistent volume. `int` values of the text functions are 32 bits wide and wrap around where the code lets
them; heap addresses are 64 bits wide and wrap around.

Where the code differs from what its comments or its documentation suggest, the model follows the code:

- A save of n sectors needs n + 1 free clusters (`SaveSucceedsIff`).
- The directory buffers of the path walk are not cleared, so entries of an earlier load can be found behind
  a shorter directory. A walk of a well-formed path that succeeds has loaded the file of the tree exactly if it met
  no such entry (`LoadedIsResolvedIff`); a volume and two paths where it meets one are in `LeftoverExample`.
- A directory level of twelve characters without a dot or slash is skipped without an error, and of what follows
  the dot of the last level only three bytes are looked at, so `/A.TEXT` loads A.TEX (`ScanSkippedIff`,
  `WalkedPathIff`, `UnnamedIsLoaded`). With the leftovers these are all ways to load a file by a path that does not
  name it (`LoadedIsNamedIff`).
- The path walk does not raise letters, open does: they find the same file for some names only (`SameNameIff`).
- The heap compares the size without the header, so the last block can end behind END, and a block whose
  area starts there cannot be released (`StaysInsideIff`, `LargestRequestPassesEnd`, `FreeTakesEffectIff`,
  `LastBlockIsNotFreed`).
- An open of a file of BUFSIZ bytes or more allocates eight bytes more than its size, but whole sectors are
  loaded (`OpenFitsIff`, `MinimalChainFitsIff`, `SavedFileOverruns`).
- Files of 8185 to 8192 bytes are opened, but their buffer is larger than buffered reads allow, so every read
  fails (`FreshFileReadsIff`).
- A socket is created with the blocking mode in which reading it while empty stops the kernel; the exact
  condition is in `StepKeepsInvariant`, an input in `BlockingReaderPanics`.
- Upper-case letters of an extension are blanked (`ExtensionSurvivesIff`).
- Zeros filled in on the right of a number change its value (`DecimalReadsBackIff`).
- `kinguio_i2hex` does not clear the field for 0 (`I2Hex`).

## Model

| member | source | states |
|---|---|---|
| Volume.BootVolume.Mount | kernel/res/dev/blkdev/ata/disk_r.c:155-232 | a mounted volume: the root directory cache holds the 32 directory sectors of the disk |
| Volume.BootVolume.LoadRootdir | kernel/res/dev/blkdev/ata/disk_r.c:155-232 | sector by sector, the cache becomes the directory region of the disk |
| Volume.BootVolume.SaveRootdir | kernel/res/dev/blkdev/ata/disk_w.c:191-232 | the directory region of the disk becomes the cache; every other sector stays |
| Volume.BootVolume.FindEmptyDirectoryEntry | kernel/res/fs/search.c:323-352 | the index of the first entry whose first byte is 0, or -1 |
| Volume.BootVolume.CollectClusters | kernel/res/fs/fslib.c:3384-3420 | succeeds exactly when the window holds one free cluster more than needed; the list then is the lowest free clusters followed by the end mark |
| Volume.BootVolume.CopyEntry | kernel/res/fs/fslib.c:3640-3640 | the 32 entry bytes at slot k, every other directory byte as before |
| Volume.BootVolume.WriteChain | kernel/res/fs/fslib.c:3669-3731 | the list is linked into the table and closed with 0xFFF8, cluster i holds sector i of the data, all other table entries and sectors are untouched |
| Volume.BootVolume.StoreFile | kernel/res/fs/fslib.c:3440-3767 | directory entry, chain, data and the root directory on disk after the decisions of a save are made |
| Volume.BootVolume.SaveFile | kernel/res/fs/fslib.c:3240-3775 | one save of the whole state machine: status, table, directory and disk afterwards; nothing changes unless it is saved |
| Volume.BootVolume.SearchDirectory | kernel/res/fs/fsload.c:336-372 | the index of the first entry that agrees with the name on all its bytes, or -1 |
| Volume.BootVolume.GetFileSize | kernel/res/fs/fat/fat16.c:291-525 | the little-endian size field of the first matching entry, or 0; the cache stays coherent |
| Volume.BootVolume.LocateFile | kernel/res/fs/fsload.c:86-401 | parameter and size checks, search and first cluster: located, failed or stopped, for every input |
| Volume.BootVolume.ReadChain | kernel/res/fs/fsload.c:448-573 | the cluster loop ends having counted exactly the clusters of the trail, without a last bad one; on success the buffer holds their sectors and the rest of it is untouched |
| Volume.BootVolume.LoadFile | kernel/res/fs/fsload.c:86-597 | 0, 1 or stop, and the buffer afterwards, for every directory, name and buffer for which the loop ends inside table and buffer |
| FatTable.TrailIsDistinct | kernel/res/fs/fsload.c:448-573 | a cluster loop that stops never meets a cluster twice |
| FatTable.LoopEndsWithinTable | kernel/res/fs/fsload.c:448-573 | the cluster loop ends at all if and only if it ends within one round more than the table has entries |
| FatTable.ChainTrail | kernel/res/fs/fsload.c:448-573 | a linked chain closed by an end marker is exactly what the loop follows; it is acyclic and no longer than the table |
| FatTable.FollowedIsChain | kernel/res/fs/fsload.c:448-573 | conversely, a loop that stops at an end marker has followed such a chain |
| FatTable.ChainFrame | kernel/res/fs/fslib.c:3677-3712 | a chain survives every change that touches only entries that were 0 |
| FatTable.FreeClustersComplete | kernel/res/fs/fslib.c:3387-3416 | the scan list holds exactly the free clusters of the window |
| Directory.PutEntryFields | kernel/res/fs/fslib.c:3549-3571 | name, attribute, first cluster and size written little-endian into the new entry read back as given |
| Directory.PutEntryFrame | kernel/res/fs/fslib.c:3640-3640 | every other entry keeps all its bytes and fields |
| Directory.PutEntryPacked | kernel/res/fs/fslib.c:3596-3623 | filling the first unused slot keeps "no used entry after the first unused one" |
| Directory.FindFromSound | kernel/res/fs/fsload.c:336-372 | the search returns the first matching entry, or there is none |
| VolumeTheorems.FormattedIsConsistent | kernel/res/dev/blkdev/ata/disk_r.c:155-232 | an empty directory on a blank disk satisfies the file-system invariant, so runs have a start |
| VolumeTheorems.SaveKeepsConsistent | kernel/res/fs/fslib.c:3387-3731 | every save, successful or not, keeps the invariant: each live chain starts in range, ends in 0xFFF8 or 0xFFFF, and shares no cluster with another; the directory stays packed and on disk |
| VolumeTheorems.RunKeepsConsistent | kernel/res/fs/fslib.c:3240-3775 | the invariant holds after every run of saves |
| VolumeTheorems.OwnedChainIsAcyclic | kernel/res/fs/fsload.c:448-573 | the chain of a live entry starts at its first cluster, has distinct clusters and fits the table |
| VolumeTheorems.EntryFrame | kernel/res/fs/fslib.c:3640-3731 | a save leaves every other entry, its chain and the bytes of the chain as they were |
| VolumeTheorems.ChainSurvives | kernel/res/fs/fslib.c:3392-3416 | every existing chain is followed exactly as before a save and is disjoint from the new one |
| VolumeTheorems.BytesKeptIff | kernel/res/fs/fslib.c:3669-3767 | a chain disjoint from the new one keeps its bytes across a save if and only if it does not run through the directory sector that takes the new entry, as one with cluster 0 or 1 can |
| VolumeTheorems.AddedEntry | kernel/res/fs/fslib.c:3440-3731 | the new entry has the stored name, size and first cluster, and its chain holds the saved sectors |
| VolumeTheorems.SaveKeepsOtherFiles | kernel/res/fs/fslib.c:3677-3712 | whatever loading a name of the root directory gives, whose chain is closed in the data area, it gives again after any save, for every buffer |
| VolumeTheorems.SaveThenLoad | kernel/res/fs/fslib.c:3240-3775 | round trip: what was saved under an absent name is loaded under it, byte for byte, exactly if the buffer takes its sectors |
| VolumeTheorems.SizeAfterSave | kernel/res/fs/fat/fat16.c:291-525 | the reported size of existing names is kept; that of a new name is the saved one modulo 2^32 |
| VolumeTheorems.RunKeepsFiles | kernel/res/fs/fslib.c:3240-3775 | so it does at every later point of a run of saves; deleted entries included |
| VolumeTheorems.SavedFileLasts | kernel/res/fs/fsload.c:86-597 | a file saved by any step of a run is loaded unchanged after any later step |
| VolumeTheorems.LoadEnds | kernel/res/fs/fsload.c:448-573 | on a consistent volume every load of a live file ends after chain-length sector reads, inside table and buffer |
| VolumeTheorems.SaveSucceedsIff | kernel/res/fs/fslib.c:3358-3428 | a save succeeds exactly when name, slot count and sector count are allowed, the window has n + 1 free clusters and a slot is unused; otherwise nothing at all changes |
| VolumeTheorems.SaveTakesLowest | kernel/res/fs/fslib.c:3387-3420 | the clusters taken are ascending and below every other free cluster of the window |
| VolumeTheorems.SaveTakesFirstSlot | kernel/res/fs/fslib.c:3596-3623 | the entry goes to the first slot whose first byte is 0 |
| PathWalk.CountPathLevels | kernel/res/fs/fslib.c:1939-1961 | the number of slashes among the first 2000 characters |
| PathWalk.ParseLevel | kernel/res/fs/fsload.c:920-1110 | one level of the path, character by character: file name, directory name, skipped level, stop or overread |
| PathWalk.LoadPath | kernel/res/fs/fsload.c:799-1188 | the whole walk over five directory buffers that are never cleared: result, file buffer, and what the directory buffers hold afterwards, for every path that does not overread |
| PathTheorems.LoadPathIff | kernel/res/fs/fsload.c:861-1188 | a well-formed path of 1 to 4 levels on which no leftover entry is met is loaded if and only if a recursive lookup in the directory tree resolves it to a file that fits, and with exactly its bytes; where a leftover is met, the tree has no such file |
| PathTheorems.LoadedIsResolvedIff | kernel/res/fs/fsload.c:861-1188 | a walk of a well-formed path that succeeds has loaded the file of the tree if and only if it met no leftover |
| PathTheorems.ClearBuffersResolve | kernel/res/fs/fsload.c:861-1188 | if no directory buffer has an entry with the name that will be sought in it, which a caller can look up before, success and resolution are equivalent |
| PathTheorems.LoadPathResolves | kernel/res/fs/fsload.c:861-1188 | whatever the buffers held before, a resolvable path loads exactly the resolved file |
| PathTheorems.WalkMatchesTree | kernel/res/fs/fsload.c:861-1188 | the same equivalence from any level of the walk, with one buffer per level |
| PathTheorems.SearchOverlay | kernel/res/fs/fsload.c:861-1188 | what a search of a directory buffer finds: an own entry of the directory, otherwise the first matching entry an earlier load left behind it |
| PathTheorems.StaleEntryIsFound | kernel/res/fs/fsload.c:861-1188 | one search: an empty directory over a buffer with a matching entry behind it finds that entry |
| PathLeftovers.LeftoverIsLoaded | kernel/res/fs/fsload.c:861-1188 | two calls: after a proper load through a longer directory, a path through a shorter one that has no such name loads the same file |
| PathLeftovers.LeftoverExample | kernel/res/fs/fsload.c:861-1188 | a volume and two paths for which this happens, whatever the buffers held at first |
| PathTheorems.WalkedPathIff | kernel/res/fs/fsload.c:861-1188 | for every path that splits into levels of 1 to 10 plain characters, skipped levels of exactly twelve, and a last level of base, dot and rest: where no leftover is met it loads exactly what the tree has under the names that are not skipped, the base, and the first three bytes of the rest |
| PathTheorems.CountSplit | kernel/res/fs/fslib.c:1939-1961 | such a path has one slash per level |
| PathForms.ScanSkippedIff | kernel/res/fs/fsload.c:914-1150 | a level is skipped if and only if it has neither dot nor slash among its first twelve characters and no terminator among its first eleven |
| PathForms.LoadedSplits | kernel/res/fs/fsload.c:861-1188 | every path of at most 2000 characters that loads a file splits in this way |
| PathForms.SplitUnique | kernel/res/fs/fsload.c:914-1150 | and in one way only |
| PathForms.LoadedIsNamedIff | kernel/res/fs/fsload.c:861-1188 | the path names what was loaded if and only if no level was skipped, the rest has at most three bytes, and no leftover was met |
| PathForms.UnnamedIsLoaded | kernel/res/fs/fsload.c:914-1150 | every path with a skipped level or a longer rest whose followed names lead to a file loads it from any buffers, and does not name it |
| PathForms.SameNamesLoadAlike | kernel/res/fs/fsload.c:861-1188 | without leftovers two paths load alike if they agree in the names that are followed, the base and three bytes of the rest |
| PathForms.LongPathIsCut | kernel/res/fs/fslib.c:1939-1961 | a path of more than 2000 characters is walked as its first 2000 are, and never names a file |
| TreeTheorems.SaveKeepsPaths | kernel/res/fs/fslib.c:3240-3775 | frame over the directory tree: a path that names a file, in any subdirectory, names the same file with the same bytes after any save, successful or not |
| TreeTheorems.RunKeepsPaths | kernel/res/fs/fslib.c:3240-3775 | and at every later point of a run of saves |
| TreeTheorems.PathLoadsLater | kernel/res/fs/fsload.c:799-1188 | so fs_load_path loads the same bytes by it at every later point, whatever the directory buffers hold by then |
| TreeTheorems.SavedFileHasPath | kernel/res/fs/fsload.c:799-1188 | a file saved in the root directory under the padded base and extension by any step of a run is loaded by /base.ext after any later step, byte for byte |
| SharedNames.SameNameIff | kernel/res/fs/fslib.c:2721-2891 | open and the path walk seek the same 11 bytes if and only if the base has no lower-case letter and the extension only digits, listed symbols and blanks |
| SharedNames.BothFindSavedFile | kernel/res/fs/fslib.c:3829-4372 | and then both find a file saved under these bytes by any earlier step, with its bytes |
| OpenFile.SearchInDir | kernel/res/fs/search.c:38-226 | 1 exactly when some entry that is neither unused, deleted nor dotted has the 11 bytes of the NUL-filled name |
| OpenFile.LoadIntoFile | kernel/res/fs/fslib.c:4139-4372 | the file object over the loaded file, or none, for every directory, name and size |
| OpenFile.InstallFile | kernel/res/fs/fslib.c:4028-4372 | the object goes to the first free of 32 descriptors; every failure leaves the descriptor table as it was |
| OpenFile.OpenInDirectory | kernel/res/fs/fslib.c:3955-4372 | search, creation on demand and installation, with volume and descriptor table afterwards |
| OpenFile.OpenFile | kernel/res/fs/fslib.c:3805-4393 | do_read_file_from_disk with its shortcuts /, @ and #: descriptor, volume and objects afterwards |
| OpenFile.CreatedIsSafe | kernel/res/fs/fslib.c:3961-4000 | a file created because it was not found can be opened at once and holds the default text in 512 bytes, unless a deleted entry in front of its slot has the name; then that one is opened as before |
| OpenTheorems.SavedBytesAreRead | kernel/res/fs/fslib.c:4028-4372 | end to end: a file of up to 8192 bytes saved by any step of a run and opened after any later one is read back in order by any sequence of reads, never beyond its size, with -1 exactly when all bytes are read, if and only if its buffer is within the 8192 bytes that buffered reads allow |
| OpenTheorems.FreshFileReadsIff | kernel/res/fs/fslib.c:174-196 | the same for any fresh file; from 8185 bytes on a file is opened but every read fails |
| OpenTheorems.DottedFileIsRead | kernel/res/fs/fslib.c:3829-4372 | what is saved under the 11 bytes of a dotted name is what the dotted path opens and reads back |
| OpenTheorems.SavedFileOpens | kernel/res/fs/fslib.c:4141-4320 | such a file is found, and opened with its saved size pending exactly if its sectors fit the buffer |
| OpenTheorems.ReadRunTakes | kernel/res/fs/fslib.c:848-930 | a series of read calls returns as many of the pending bytes as asked for, in order, and leaves the rest pending |
| OpenTheorems.ReadCallTakes | kernel/res/fs/fslib.c:848-930 | one read call takes min(count, pending) bytes, or reports -1 when none are pending |
| OpenTheorems.ExistingIsListed | kernel/res/fs/search.c:172-226 | for names that do not start with 0, 0xE5, a dot or a slash, the search of open finds what a load finds |
| OpenTheorems.DottedPath | kernel/res/fs/fslib.c:3829-3938 | a path that spells a dotted name is sought under the 11 bytes of the name |
| OpenTheorems.DottedNameIsSearchable | kernel/res/fs/search.c:154-226 | those 11 bytes start with none of the bytes that the directory search skips or refuses |
| OpenTheorems.SecondConversionIsRejected | kernel/res/fs/fslib.c:2535-2542 | a name converted twice is found by no directory search, loaded from no directory and refused by every open |
| OpenTheorems.OpenFitsIff | kernel/res/fs/fslib.c:4160-4330 | an open stays inside its buffer if and only if the whole clusters of the file fit: BUFSIZ bytes below that size, size + 8 from there on |
| OpenTheorems.MinimalChainFitsIff | kernel/res/fs/fslib.c:4160-4196 | for files without spare clusters: below BUFSIZ always, otherwise only if at most eight bytes of the last cluster are unused |
| OpenTheorems.SavedFileOverruns | kernel/res/fs/fslib.c:4160-4330 | an input on the failing side: three sectors for 1025 bytes |
| OpenTheorems.OverrunHappens | kernel/res/fs/fslib.c:3358-3428 | and such saves succeed |
| FileStream.File.constructor | kernel/res/fs/fslib.c:4055-4125 | a new file object over its buffer |
| FileStream.File.FileReadBuffer | kernel/res/fs/fslib.c:80-338 | result, object and bytes copied out for every state and length; the rest of the target is untouched |
| FileStream.File.FileWriteBuffer | kernel/res/fs/fslib.c:349-534 | result, object and buffer for every state and length for which the copy fits |
| FileStream.File.Read | kernel/res/fs/fslib.c:848-930 | the read system call on a regular file, with the rest of the target untouched |
| FileStream.File.Write | kernel/res/fs/fslib.c:1364-1415 | the write system call on a regular file |
| FileStream.File.ResetForWriting | kernel/res/fs/fs.c:431-446 | request 216 clears the offsets and the full mark but not _cnt |
| FileStream.File.ResetForReading | kernel/res/fs/fs.c:451-459 | request 217 changes the flags only |
| FileStream.File.SeekClear | kernel/libk/kstdio.c:1264-1277 | the first BUFSIZ bytes are zeroed, offsets 0, _cnt the buffer size |
| StreamTheorems.RunOps | kernel/res/fs/fslib.c:80-534 | 0 <= _r <= _w, 0 <= _cnt and _w + _cnt <= _lbfsize = BUFSIZ hold after every run of reads, writes, requests 216 and 217 and clearing seeks |
| StreamTheorems.ApplyKeepsBounds | kernel/res/fs/fslib.c:80-534 | each single operation keeps these bounds |
| StreamTheorems.CopiesStayInside | kernel/res/fs/fslib.c:174-527 | with these bounds every copy of a read or write stays inside the buffer |
| StreamTheorems.ReadAmount | kernel/res/fs/fslib.c:174-333 | a read returns the next min(count, _w - _r) pending bytes and advances _r by as many |
| StreamTheorems.WriteAmount | kernel/res/fs/fslib.c:410-527 | a write below BUFSIZ bytes accepts the longest prefix that fits and appends it to what is pending; larger ones accept nothing |
| StreamTheorems.TransferConserves | kernel/res/fs/fslib.c:80-534 | bytes handed out plus bytes pending afterwards are bytes pending before plus bytes taken in |
| StreamTheorems.StreamRefinement | kernel/res/fs/fslib.c:80-534 | over every run the bytes read are a prefix of the initial contents followed by the accepted bytes, and the pending bytes are the rest |
| SocketChannel.ReadSocket | kernel/res/fs/fslib.c:740-830 | one read step: result, panic or not, object and bytes, with the rest of the target untouched |
| SocketChannel.WriteSocket | kernel/res/fs/fslib.c:1254-1355 | one write step, including writes of BUFSIZ bytes or more, which leave the flags at 0 |
| SocketChannel.SleepIfSocketIsEmpty | kernel/res/fs/fs.c:675-750 | the answer of the system call and the permission it grants |
| SocketChannel.StepKeepsInvariant | kernel/res/fs/fslib.c:740-830 | "a full buffer has exactly the read flag" is inductive, the final panics of both branches are unreachable, and the blocking panic happens exactly for a blocking reader that may read an empty buffer |
| SocketChannel.StepRefinesSlot | kernel/res/fs/fslib.c:1254-1355 | each step is a legal step of a channel with one slot |
| SocketChannel.EveryRunIsLegal | kernel/res/fs/fs.c:420-459 | so is every run of reads, writes, requests 216 and 217 and sleep calls, in any interleaving |
| SocketChannel.NewSocketRuns | kernel/res/net/sockint.c:670-719 | and a socket as it is created starts such runs with the slot vacant |
| SocketChannel.NonBlockingRunsToTheEnd | kernel/res/fs/fslib.c:740-830 | without blocking readers no call panics |
| SocketChannel.BlockingReaderPanics | kernel/res/fs/fslib.c:758-785 | an input for which a blocking reader does: a new socket, request 217, one read |
| SocketChannel.NoOverwrite | kernel/res/fs/fslib.c:1272-1299 | between two accepted messages the first one is read or discarded |
| SocketChannel.DeliveryHasMessage | kernel/res/fs/fslib.c:791-822 | every delivery agrees with the one message accepted since the slot was last emptied, so none is read twice |
| SocketChannel.InOrder | kernel/res/fs/fslib.c:740-830 | without request 216 the deliveries are the messages in order, at most one outstanding |
| Heap.KernelHeap.constructor | kernel/res/mm/mm.c:149-238 | the initial heap: pointer at START, all space available, no block |
| Heap.KernelHeap.AllocateMemory | kernel/res/mm/mm.c:315-502 | address, 0 or panic, and every global and header afterwards, in 64-bit wrapping arithmetic |
| Heap.KernelHeap.FreeMemory | kernel/res/mm/mm.c:513-566 | the block headers afterwards; nothing else can change |
| Heap.KernelHeap.Kmalloc | kernel/libk/kstdlib.c:113-187 | negative sizes are refused without effect, 0 becomes 1, all others are passed on |
| HeapTheorems.RunKeepsInv | kernel/res/mm/mm.c:315-566 | after every run of allocations and releases the blocks tile [START, pointer), each header at the end of its predecessor, and the available space is END - pointer modulo 2^64 |
| HeapTheorems.AllocKeepsInv | kernel/res/mm/mm.c:393-497 | an allocation keeps the tiling |
| HeapTheorems.FreeKeepsInv | kernel/res/mm/mm.c:513-566 | a release keeps the tiling |
| HeapTheorems.BlocksDisjoint | kernel/res/mm/mm.c:420-450 | headers and user areas of different blocks never overlap |
| HeapTheorems.Conservation | kernel/res/mm/mm.c:461-477 | headers + live areas + stock + available = END - START exactly as long as the pointer has not passed END |
| HeapTheorems.StaysInsideIff | kernel/res/mm/mm.c:350-359 | a granted request stays inside exactly when it fits together with its header; the code tests the size alone |
| HeapTheorems.LargestRequestPassesEnd | kernel/res/mm/mm.c:350-359 | an input for which it does not: the largest first request ends header - 1 bytes behind END |
| HeapTheorems.Overshoot | kernel/res/mm/mm.c:350-397 | only the last block can pass END, by fewer bytes than a header, and then nothing is granted any more |
| HeapTheorems.NothingAfterOvershoot | kernel/res/mm/mm.c:350-397 | over runs: no later allocation returns an address and the pointer stays |
| HeapTheorems.FittingRunStaysInside | kernel/res/mm/mm.c:315-502 | while granted requests fit with their headers the heap stays inside and conserves its space |
| HeapTheorems.GrantedArea | kernel/res/mm/mm.c:420-497 | a granted address starts an area of the requested size behind all earlier blocks and may be released |
| HeapTheorems.AddressStaysFreeable | kernel/res/mm/mm.c:513-566 | and may be released at every later point |
| HeapTheorems.FreeFlipsMagicOnly | kernel/res/mm/mm.c:513-566 | a release changes at most one Magic, and a second release of the same pointer nothing |
| HeapTheorems.FreeTakesEffectIff | kernel/res/mm/mm.c:530-566 | a live block becomes stock if and only if its area starts before END |
| HeapTheorems.LastBlockIsNotFreed | kernel/res/mm/mm.c:530-566 | a run for which it does not: the last block starts its area at END and its release is ignored |
| TextNumbers.Itoa | kernel/libk/kstdio.c:768-804 | the decimal text of every 32-bit number, in place, terminated, nothing behind it touched |
| TextNumbers.PutDigits | kernel/libk/kstdio.c:783-787 | the digits, least significant first |
| TextNumbers.ReverseRange | kernel/libk/kstdio.c:794-800 | the range reversed in place, the rest untouched |
| TextNumbers.Atoi | kernel/libk/kstdlib.c:43-78 | the number a text reads as, reduced to 32 bits, for every terminated string |
| TextNumbers.RoundTrip | kernel/libk/kstdlib.c:43-78 | k_atoi of the text of v is v for every 32-bit v including -2^31, behind any text without digits or signs and before any tail that starts with no digit |
| TextNumbers.ReadingOfText | kernel/libk/kstdlib.c:43-78 | the same for numbers of any size, before the reduction |
| TextNumbers.TextIsCanonical | kernel/libk/kstdio.c:768-804 | at most one sign, digits without a leading zero, at most eleven bytes |
| TextNumbers.TextIsInjective | kernel/libk/kstdio.c:768-804 | different numbers have different texts |
| TextNumbers.I2Hex | kernel/libk/kstdio.c:717-766 | the hexadecimal text at the start of the field, NULs up to its end (for 0 only the terminator), nothing behind it touched |
| TextNumbers.CopyDown | kernel/libk/kstring.c:156-164 | strcpy downwards inside one buffer is right although source and target overlap |
| TextNumbers.HexIsNumeral | kernel/libk/kstdio.c:717-766 | the text is an upper-case hexadecimal numeral of the number without leading zero |
| TextNumbers.HexIsUnique | kernel/libk/kstdio.c:717-766 | and the only one |
| Numerals.CanonicalUnique | kernel/libk/kstdio.c:768-804 | a number has only one numeral without leading zeros |
| Printing.Prints | kernel/libk/kstdio.c:440-485 | the padded text and its length, for every string, width and padding |
| Printing.Printi | kernel/libk/kstdio.c:493-555 | the formatted number and its length for bases 10 and 16; the twelve-byte buffer is never left |
| Printing.PutNumeral | kernel/libk/kstdio.c:524-537 | the digits at the end of the buffer, terminated, with room for a sign |
| Printing.FormattedLength | kernel/libk/kstdio.c:493-555 | exactly max(width, sign + digits) characters |
| Printing.BufferIsTight | kernel/libk/kstdio.c:503-537 | all twelve bytes are needed exactly for signed decimals of at most -1000000000 |
| Printing.DecimalReadsBackIff | kernel/libk/kstdio.c:493-555 | k_atoi, with its 32-bit wrap-around, gives back the 32-bit argument if and only if it is 0 or no zeros were filled in on its right |
| Printing.DecimalReadingIff | kernel/libk/kstdio.c:493-555 | the same for the unbounded reading of the text and the signed or unsigned value |
| Printing.HexadecimalFormatted | kernel/libk/kstdio.c:493-555 | hexadecimals are the digits of the number with zeros or blanks around; the value is lost exactly by zeros on the right of a number other than 0 |
| Tokenizer.Strtok.Next | kernel/libk/kstring.c:523-586 | one call: token, buffer and *last afterwards |
| Tokenizer.NthCallGivesToken | kernel/libk/kstring.c:523-586 | call n gives token n, then NULL for ever, and exactly the ends of the tokens given are overwritten |
| Tokenizer.TokensAreMaximalRuns | kernel/libk/kstring.c:523-586 | the tokens are exactly the maximal runs of non-delimiters of the string |
| Tokenizer.TokensAscend | kernel/libk/kstring.c:523-586 | they come from left to right |
| Tokenizer.TokensStayReadable | kernel/libk/kstring.c:565-577 | every token given so far stays in the buffer as an unchanged C string |
| Tokenizer.OnlyDelimitersOverwritten | kernel/libk/kstring.c:565-571 | a changed byte was a delimiter behind the start of the string and is now NUL |
| Names83.Convert | kernel/res/fs/fslib.c:2549-2717 | the buffer after the conversion, for every name that fits: text, NUL and the untouched rest |
| Names83.FnToS | kernel/res/fs/fslib.c:2549-2717 | fs_fntos: the missing extension is BIN |
| Names83.FnToS2 | kernel/res/fs/fslib.c:2721-2891 | fs_fntos2: the missing extension is blank |
| Names83.DottedConverts | kernel/res/fs/fslib.c:2618-2711 | both turn a dotted name into the same 11 bytes: base and extension raised and padded |
| Names83.PlainConverts | kernel/res/fs/fslib.c:2605-2611 | names without a dot get the extension of the function |
| Names83.PartsRecovered | kernel/res/fs/fslib.c:2671-2711 | base and extension can be read back from the 11 bytes, up to case |
| Names83.NoCollisions | kernel/res/fs/fslib.c:2671-2711 | two dotted names collide exactly when they agree up to case |
| Names83.ExtensionSurvivesIff | kernel/res/fs/fslib.c:2618-2665 | an extension survives exactly when each byte is a lower-case letter, a digit, a listed symbol or a blank |
| Names83.UpperCaseExtensionIsLost | kernel/res/fs/fslib.c:2772-2818 | an input for which it does not: "a.B" is converted like "a" |
| Names83.ElevenBytesIff | kernel/res/fs/fslib.c:2671-2711 | 11 bytes exactly for non-empty names with at most eight bytes before the dot, more for longer ones |
| Names83.SecondConversionGrows | kernel/res/fs/fslib.c:2535-2542 | converting twice gives 14 bytes |

## Left out

- Disk driver, IRQ waits, ATA ports, and LBA arithmetic beyond DATAAREA + cluster - 2.
- Saves of zero sectors: the save loop would index its list at -1, so a request has at least one sector.
- Saves into directories other than the root directory, and with them creating a file behind the `@` and `#` shortcuts.
- The flush of the FAT cache at reboot and address validation of the arguments of saves and loads.
- The meaning of the time stamps and of attribute bits other than the directory bit; the bytes are written as the code writes them.
- TreeTheorems.SaveKeepsPaths: for lookups that meet a chain through clusters 0 or 1, which lie in the root directory region that every successful save rewrites (`BytesKeptIff` has the exact condition); and for seeking a name that starts with 0 in the root directory, which no path of the code does.
- OpenFile.OpenInDirectory: creating a file although an entry that open passes over has its name and a chain that is not closed in the data area, because loading that chain after the save may leave the buffer.
- OpenFile.OpenFile: the conversion is done on a copy of the string, so the change to the caller's string is not seen; user, group, mode bits and the size field of the object are not kept, and running out of kernel memory is not modelled here.
- Heap.KernelHeap.Kmalloc: the usage counter of the calling process; `kcalloc` and the contents of user areas are not part of this model.
- Heap.KernelHeap.FreeMemory: pointers inside the heap that no allocation returned, because the code then reads an arbitrary header.
- TextNumbers.I2Hex: field lengths other than eight.
- Printing.Printi: bases other than 10 and 16, for which a longer buffer would be needed; the format string loop of print and the console behind printchar.
- FileStream.File.FileWriteBuffer: negative offsets that a copy could start from are excluded by the copy having to fit the buffer; k_fseek with SEEK_SET, SEEK_CUR and SEEK_END does not update _cnt and is not modelled.
- SocketChannel.WriteSocket: waking and yielding threads, and progress after a write of BUFSIZ bytes or more until the next sync call.
- Pipes and their system calls, k_fputc and k_fgetc, strspn and strcspn.
- Keyboard and mouse broker, console commands, deferred requests, user and device tables, boot order, graphics, ioctl stubs and ELF constants.
- Reuse and coalescing of heap blocks: kernel/res/mm/heap00.c and help00.c describe them but are not built.
