# Verified models of the Simula File System, a blocking open and a RAM disk

This project models the small systems in the repository whose code keeps non-trivial state,
and proves what that code keeps over every run.

**The Simula File System (SFS).** A device holds a superblock, a table of 64-byte entries and
data blocks of 512 bytes. A mounted volume adds a map of used blocks that must always say what
the table says.

- `SfsLayout` – bytes: 32-bit words, the encoded superblock and entry, the table inside the device.
- `BlockTranslation` – the two address translations (November: absolute address; October: block stepping).
- `SfsVolume` – the mounted volume as a value and what each operation does to it.
- `SfsKernel` – the kernel operations on the device bytes and the array of used blocks, each proved
  to do to the volume what `SfsVolume` says and to leave every byte outside the table alone.
- `SfsOwnership`, `SfsRuns` – exclusive ownership of blocks over every run of one mount; agreement of
  map and table over every in-order run, remounts included; what an out-of-order allocation costs.
- `SfsConservation`, `SfsTruncation`, `SfsDirectory`, `SfsContent` – conservation of blocks, truncation,
  the directory as a finite map, isolation of file contents on the device bytes.
- `SfsFormat` – the formatter, and the life of a volume from formatting on.
- `AllocatorThreads` – the allocator run statement by statement by any number of threads.
- `BrowseData`, `BrowseSfs`, `BrowseTheorems` – the user-space write and read of a file, with input
  that arrives in pieces of any size.

**The blocking open** of the `sleep` module: any number of processes open, sleep, wake, are
interrupted and close, one statement at a time in any interleaving.

- `BlockingOpen` – the statements, what every run keeps, and exactly when the file has one holder.
- `NonblockingOpen` – exactly when an open with O_NONBLOCK waits, and when a signal ends an open.
- `OpenOutcomes` – when an open may fail, and what an open, a close and a woken sleeper do left to themselves.

**The RAM disk** (`RamBlock`): a segmented request as one flat copy.

Where the code does less than one would expect, the model keeps the code as it is and a lemma
says exactly when it does what is wanted: names longer than 15 characters, blocks added out of order,
sizes near 2^32, partitions of 4 GiB and of 40 GiB and more, rewriting a file with fewer blocks, a last
block that finds the file system full, two opens that overtake each other, opening with O_NONBLOCK, and
signals that the loop of an open does not find.

Conditions under which the results hold, each visible as a precondition:

- A volume is laid out as the formatter lays it out (`Geometry`): block size 512, table at block 1,
  every table byte at a 32-bit address. `LayoutIsSoundExactly` says which partitions that covers.
- Entries hold block number 0 or the number of a data block, and names end with a NUL (`SafeTable`);
  this is what the C code needs to stay inside its arrays.
- Inode numbers passed in come from earlier lookups and creations, so they name a slot of the table.
- The device is a whole number of device blocks, whose size is a multiple of 64 and at least 512. Under
  these conditions no table access can fail, so the tests of the returned error codes, two of which look
  for -1 where -EIO would come, never matter and are not modelled.
- In user space positions are computed in 32 bits; a read or write visits blocks below 2^23 only, as it
  always does on a partition of up to 4 GiB. `ReachesExactly` says when a write does.
- Words are stored little-endian, and the structures have no padding.
- The formatter's factor 0.10 is integer division by 10; for 32-bit counts the double-precision product
  truncates to the same number.
- In the blocking open a record stands for one use of the file, from its open to its close. A caller that
  opens the file again while it has it open, or a child that closes what its parent opened, advances several
  records, so such runs are among those considered. A process may be preempted between any two statements;
  `wake_up`, `try_module_get` and `module_put` are one step each, `wait_event_interruptible` is taken apart.

## Model

| member | source | states |
|---|---|---|
| SfsLayout.DecodeEncodeEntry | lfy_dd_series/18-25-Filesystem/7_nov12/RealSFSInAction/real_sfs_ds.h:32-39 | decoding the 64 bytes of an encoded entry gives the entry back |
| SfsLayout.EncodeDecodeEntry | lfy_dd_series/18-25-Filesystem/7_nov12/RealSFSInAction/real_sfs_ds.h:32-39 | every 64 bytes are the encoding of the entry they decode to, so bytes and entries correspond one to one |
| SfsLayout.DecodeEncodeSuperBlock | lfy_dd_series/18-25-Filesystem/7_nov12/RealSFSInAction/real_sfs_ds.h:19-30 | the superblock read from its encoding is the one written |
| SfsLayout.SuperBlockBytes | lfy_dd_series/18-25-Filesystem/7_nov12/RealSFSInAction/real_sfs_ds.h:19-30 | each field of the superblock is at its own offset, as a little-endian number, and the reserved bytes are zero |
| SfsLayout.EntryBytes | lfy_dd_series/18-25-Filesystem/7_nov12/RealSFSInAction/real_sfs_ds.h:32-39 | name, size, timestamp, permissions and each block number of an entry are at their own offsets |
| SfsLayout.PadNameIsTruncation | lfy_dd_series/18-25-Filesystem/7_nov12/RealSFSInAction/real_sfs_ops.c:196-197 | the stored name is the first 15 characters of the given one and ends with a NUL |
| SfsLayout.StoreEntry | lfy_dd_series/18-25-Filesystem/7_nov12/RealSFSInAction/real_sfs_ops.c:47-70 | writing the bytes of entry i changes element i of the table, no other element, and no byte outside the table |
| BlockTranslation.EntryIsInside | lfy_dd_series/18-25-Filesystem/7_nov12/RealSFSInAction/real_sfs_ops.c:24-46 | for a device block size that is a multiple of 64, an access to an in-range entry goes to the entry's own address, never straddles device blocks and never leaves the device |
| BlockTranslation.EntryAddressExactly | lfy_dd_series/18-25-Filesystem/7_nov12/RealSFSInAction/real_sfs_ops.c:32-34 | an entry is found at its own address exactly when that fits in 32 bits; the first one that does not wraps onto the superblock |
| BlockTranslation.LocateExactly | lfy_dd_series/18-25-Filesystem/7_nov12/RealSFSInAction/real_sfs_ops.c:33-45 | a request goes to the device block its address lies in, unless it runs over the end of that block or, failing that, the block ends behind the device |
| BlockTranslation.ReadOctober | lfy_dd_series/18-25-Filesystem/6_oct12/RealSFSOnBlockDevice/real_sfs_ops.c:22-43 | the October read returns the bytes at the stepped block and offset, or one of its two errors |
| BlockTranslation.VersionsAgree | lfy_dd_series/18-25-Filesystem/6_oct12/RealSFSOnBlockDevice/real_sfs_ops.c:22-43 | on a device whose blocks are SFS blocks, the two versions send every request that does not overflow to the same place and refuse the same requests |
| BlockTranslation.VersionsAgreeExactly | lfy_dd_series/18-25-Filesystem/6_oct12/RealSFSOnBlockDevice/real_sfs_ops.c:27-35 | with 512-byte blocks and any 32-bit arguments, the versions agree exactly when the block lies below 2^23 or both refuse |
| SfsVolume.ChainLen | lfy_dd_series/18-25-Filesystem/7_nov12/RealSFSInAction/real_sfs_ops.c:111-115 | the scan of block numbers ends at the first zero |
| SfsVolume.FindNameIsLeast | lfy_dd_series/18-25-Filesystem/7_nov12/RealSFSInAction/real_sfs_ops.c:215-223 | lookup finds the least live slot of that name, or there is none |
| SfsVolume.FirstFreeIsLeast | lfy_dd_series/18-25-Filesystem/7_nov12/RealSFSInAction/real_sfs_ops.c:134-144 | allocation finds the least free data block, or there is none |
| SfsKernel.InodeNumbersAreShifted | lfy_dd_series/18-25-Filesystem/7_nov12/RealSFSInAction/real_sfs_ops.h:9-10 | slots below n and inode numbers from 1 to n correspond one by one |
| SfsKernel.SfsInfo.ReadFromRealSfs | lfy_dd_series/18-25-Filesystem/7_nov12/RealSFSInAction/real_sfs_ops.c:24-46 | a read returns the device bytes at the absolute 32-bit address, or the error that the translation gives |
| SfsKernel.SfsInfo.WriteToRealSfs | lfy_dd_series/18-25-Filesystem/7_nov12/RealSFSInAction/real_sfs_ops.c:47-70 | a write replaces exactly the bytes at the absolute address, or nothing when it returns an error |
| SfsKernel.SfsInfo.ReadEntry | lfy_dd_series/18-25-Filesystem/7_nov12/RealSFSInAction/real_sfs_ops.c:105 | reading entry i gives element i of the table; no error is possible |
| SfsKernel.SfsInfo.WriteEntry | lfy_dd_series/18-25-Filesystem/7_nov12/RealSFSInAction/real_sfs_ops.c:206 | writing entry i replaces exactly element i of the table and no byte outside it; no error is possible |
| SfsKernel.SfsInfo.InitBrowsing | lfy_dd_series/18-25-Filesystem/7_nov12/RealSFSInAction/real_sfs_ops.c:72-122 | mounting fails exactly for a wrong magic number, and otherwise marks the metadata blocks and every block in the chain of a live entry, and no other |
| SfsKernel.SfsInfo.SfsGetDataBlock | lfy_dd_series/18-25-Filesystem/7_nov12/RealSFSInAction/real_sfs_ops.c:129-145 | the least free data block is marked and returned, or -1 when none is free |
| SfsKernel.SfsInfo.SfsPutDataBlock | lfy_dd_series/18-25-Filesystem/7_nov12/RealSFSInAction/real_sfs_ops.c:146-151 | exactly that cell of the map becomes free |
| SfsKernel.SfsInfo.SfsLookup | lfy_dd_series/18-25-Filesystem/7_nov12/RealSFSInAction/real_sfs_ops.c:211-224 | the inode number and entry of the least live slot of that name, or -1 |
| SfsKernel.SfsInfo.SfsCreate | lfy_dd_series/18-25-Filesystem/7_nov12/RealSFSInAction/real_sfs_ops.c:170-210 | creation does to the table what the model's creation does, returns its inode number or -1, and touches no byte outside the table |
| SfsKernel.SfsInfo.SfsRemove | lfy_dd_series/18-25-Filesystem/7_nov12/RealSFSInAction/real_sfs_ops.c:225-250 | removal frees exactly the chained blocks of the named file and clears its entry |
| SfsKernel.SfsInfo.SfsUpdate | lfy_dd_series/18-25-Filesystem/7_nov12/RealSFSInAction/real_sfs_ops.c:258-281 | an update stores the attributes passed, frees and zeroes the blocks from the kept number on, and changes nothing else |
| SfsKernel.SfsInfo.SfsGetFileEntry | lfy_dd_series/18-25-Filesystem/7_nov12/RealSFSInAction/real_sfs_ops.c:251-257 | returns the entry of that inode |
| SfsKernel.SfsInfo.SfsUpdateFileEntry | lfy_dd_series/18-25-Filesystem/7_nov12/RealSFSInAction/real_sfs_ops.c:282-285 | replaces exactly the entry of that inode |
| SfsKernel.SfsInfo.SfsGetBlock | lfy_dd_series/18-25-Filesystem/7_nov12/RealSFSInAction/real_sfs.c:82-121 | returns the mapped block, allocates and stores the least free one on demand, or fails leaving the volume as it was |
| SfsRuns.CallableExactly | lfy_dd_series/18-25-Filesystem/7_nov12/RealSFSInAction/real_sfs_ops.c:170-285 | no operation of a run makes a later one impossible: a run can be called exactly when its inode numbers name slots of the table |
| SfsRuns.ExclusiveOwnership | lfy_dd_series/18-25-Filesystem/7_nov12/RealSFSInAction/real_sfs.c:82-121 | over every run of one mount, in any order and with any holes, no data block has two owners and every owned block is marked used |
| SfsRuns.RemountAgreement | lfy_dd_series/18-25-Filesystem/7_nov12/RealSFSInAction/real_sfs_ops.c:88-121 | over every in-order run, with late updates and remounts, mounting again rebuilds the map the volume already has |
| SfsRuns.UpdateKeepsConsistent | lfy_dd_series/18-25-Filesystem/7_nov12/RealSFSInAction/real_sfs_ops.c:258-281 | an update keeps map and table in agreement; for an entry already removed it leaves the map unchanged |
| SfsRuns.MountGivesConsistent | lfy_dd_series/18-25-Filesystem/7_nov12/RealSFSInAction/real_sfs_ops.c:88-116 | mounting a hole-free table without shared blocks establishes the invariant |
| SfsRuns.GetBlockIsStable | lfy_dd_series/18-25-Filesystem/7_nov12/RealSFSInAction/real_sfs.c:91-118 | a block obtained for a place is a data block that no other place has, and asking again gives the same block and changes nothing |
| SfsRuns.GetBlockAgreesExactly | lfy_dd_series/18-25-Filesystem/7_nov12/RealSFSInAction/real_sfs.c:91-116 | the map still agrees with the table exactly when no block is handed out, or the entry is live and the index skips none |
| SfsRuns.MapBlockChangesOnly | lfy_dd_series/18-25-Filesystem/7_nov12/RealSFSInAction/real_sfs.c:91-118 | a block asked for is the one mapped, or the least free one, entered at that one place of the entry; a failure changes nothing |
| SfsRuns.RemoveFreesExactly | lfy_dd_series/18-25-Filesystem/7_nov12/RealSFSInAction/real_sfs_ops.c:225-250 | removal frees a block exactly when no index before it is zero, so blocks behind a hole stay marked; it clears the entry and changes nothing else |
| SfsRuns.OutOfOrderThenRemountSharesABlock | lfy_dd_series/18-25-Filesystem/7_nov12/RealSFSInAction/real_sfs.c:99-111 | an out-of-order allocation, a remount and one more allocation always make two places share a data block |
| SfsConservation.Conservation | lfy_dd_series/18-25-Filesystem/7_nov12/RealSFSInAction/real_sfs_ops.c:129-151 | in every state of an in-order run, free data blocks, references of live entries and metadata blocks add up to the partition |
| SfsConservation.FullIsNoFreeBlock | lfy_dd_series/18-25-Filesystem/7_nov12/RealSFSInAction/real_sfs_ops.c:134-144 | allocation fails exactly when the set of free data blocks is empty |
| SfsConservation.MappingFailsExactly | lfy_dd_series/18-25-Filesystem/7_nov12/RealSFSInAction/real_sfs.c:91-111 | no space exactly for an index of 9 or more or when a block would have to be allocated and none is free; not mapped exactly when allocation is not asked for |
| SfsTruncation.UpdateTruncatesExactly | lfy_dd_series/18-25-Filesystem/7_nov12/RealSFSInAction/real_sfs_ops.c:267-278 | with or without a size passed, exactly the blocks past the size are cut and freed, and nothing else changes, if and only if rounding the size up does not wrap or the entry holds no block |
| SfsTruncation.UpdateStoresAttributes | lfy_dd_series/18-25-Filesystem/7_nov12/RealSFSInAction/real_sfs_ops.c:267-269 | timestamp, size and permissions passed are stored, permissions above 07 are ignored, what is not passed stays, and so does the name |
| SfsTruncation.BlocksNeededIsLeast | lfy_dd_series/18-25-Filesystem/7_nov12/RealSFSInAction/real_sfs_ops.c:271 | the number of blocks needed is the least one with room for the bytes |
| SfsTruncation.PermsStaySmallExactly | lfy_dd_series/18-25-Filesystem/7_nov12/RealSFSInAction/real_sfs_ops.c:269 | permissions stay within 07 exactly when no negative value is passed; larger values are ignored |
| SfsDirectory.CreateRefinesMap | lfy_dd_series/18-25-Filesystem/7_nov12/RealSFSInAction/real_sfs_ops.c:170-210 | for names of 1 to 15 characters creation fails exactly when the name is present or every slot is taken, and otherwise adds exactly that name |
| SfsDirectory.CreatedFileIsEmpty | lfy_dd_series/18-25-Filesystem/7_nov12/RealSFSInAction/real_sfs_ops.c:196-209 | a created file has size 0, no block and the attributes given, and nothing else changes |
| SfsDirectory.RemoveUndoesCreate | lfy_dd_series/18-25-Filesystem/7_nov12/RealSFSInAction/real_sfs_ops.c:170-250 | removing a file just created gives the directory and the map from before |
| SfsDirectory.RemoveRefinesMap | lfy_dd_series/18-25-Filesystem/7_nov12/RealSFSInAction/real_sfs_ops.c:225-250 | removal drops exactly that name, and lookup then fails |
| SfsDirectory.LookupReadsDirectory | lfy_dd_series/18-25-Filesystem/7_nov12/RealSFSInAction/real_sfs_ops.c:211-224 | lookup is lookup in the finite map |
| SfsDirectory.DirectoryRefinesMap | lfy_dd_series/18-25-Filesystem/7_nov12/RealSFSInAction/real_sfs_ops.c:170-250 | over every run names stay unique and the table is the finite map that the same operations build |
| SfsDirectory.CreatedIsFoundExactly | lfy_dd_series/18-25-Filesystem/7_nov12/RealSFSInAction/real_sfs_ops.c:184-209 | a created file is found under its name exactly when that has 1 to 15 characters |
| SfsDirectory.CreateKeepsNamesUniqueExactly | lfy_dd_series/18-25-Filesystem/7_nov12/RealSFSInAction/real_sfs_ops.c:184-197 | names stay unique exactly when the stored prefix was not a name before, or is empty |
| SfsContent.WriteIsIsolated | lfy_dd_series/18-25-Filesystem/7_nov12/RealSFSInAction/real_sfs.c:117-120 | writing the device block mapped for one (file, index) sets that content and keeps every other file block, the table and the superblock |
| SfsContent.ContentIsolation | lfy_dd_series/18-25-Filesystem/7_nov12/RealSFSInAction/real_sfs.c:91-118 | over every run of one mount, and over every in-order run with remounts, a file block that stays mapped changes only by writes to that block of that file |
| SfsContent.LastWriteWins | lfy_dd_series/18-25-Filesystem/7_nov12/RealSFSInAction/real_sfs.c:91-118 | over the same runs, a file block that stays mapped holds what was last written to it |
| SfsFormat.LayoutIsSoundExactly | lfy_dd_series/18-25-Filesystem/7_nov12/RealSFSInAction/format_real_sfs.c:66-69 | the layout is sound, its entries filling the table, exactly for devices whose number of blocks modulo 2^32 is between 1 and 83886079 |
| SfsFormat.LayoutInNumbers | lfy_dd_series/18-25-Filesystem/7_nov12/RealSFSInAction/format_real_sfs.c:66-69 | the partition is the device in blocks, the table is the integer part of a tenth of it, with eight entries a block, and the data blocks follow |
| SfsFormat.RegionsAreDisjoint | lfy_dd_series/18-25-Filesystem/7_nov12/RealSFSInAction/format_real_sfs.c:66-69 | superblock, table and data region follow each other and end inside the device |
| SfsFormat.Format | lfy_dd_series/18-25-Filesystem/7_nov12/RealSFSInAction/format_real_sfs.c:26-43 | formatting writes the superblock, with the number of blocks at byte 8 and every other field at its offset, clears exactly the table and keeps every byte behind it |
| SfsFormat.FormatEstablishes | lfy_dd_series/18-25-Filesystem/7_nov12/RealSFSInAction/format_real_sfs.c:30-43 | a formatted device mounts consistently, with an empty directory and exactly the metadata blocks used |
| SfsFormat.FormatAndMount | lfy_dd_series/18-25-Filesystem/7_nov12/RealSFSInAction/real_sfs_ops.c:72-122 | formatting a device and mounting it always succeeds and gives the fresh, consistent volume |
| SfsFormat.WholeLife | lfy_dd_series/18-25-Filesystem/7_nov12/RealSFSInAction/real_sfs_ops.c:72-285 | from format through any in-order run, map and table agree, no block is shared, and the directory is the finite map built from the empty one |
| AllocatorThreads.RunsAreAtomic | lfy_dd_series/18-25-Filesystem/7_nov12/RealSFSInAction/real_sfs_ops.c:129-151 | every interleaving of gets and puts is a sequence of atomic ones: a get takes the least block free at its set step, a failing get finds none |
| AllocatorThreads.ReturnsWhatItTook | lfy_dd_series/18-25-Filesystem/7_nov12/RealSFSInAction/real_sfs_ops.c:133-144 | what a get returns is what its own atomic step took, as the latest event |
| AllocatorThreads.NeverTwice | lfy_dd_series/18-25-Filesystem/7_nov12/RealSFSInAction/real_sfs_ops.c:129-151 | no block is given out twice without a put of it in between |
| AllocatorThreads.OneInside | lfy_dd_series/18-25-Filesystem/7_nov12/RealSFSInAction/real_sfs_ops.c:133-143 | at most one thread is between lock and unlock |
| AllocatorThreads.OnlyTheLockBlocks | lfy_dd_series/18-25-Filesystem/7_nov12/RealSFSInAction/real_sfs_ops.c:133-150 | no thread ever stands before an access outside the map; only the lock can hold one up |
| AllocatorThreads.FreeExactly | lfy_dd_series/18-25-Filesystem/7_nov12/RealSFSInAction/real_sfs_ops.c:129-151 | after every interleaving a block is free exactly when the last event about it is a put, or there is none and it was free before |
| AllocatorThreads.PutFreesItsBlock | lfy_dd_series/18-25-Filesystem/7_nov12/RealSFSInAction/real_sfs_ops.c:146-151 | a put about to return has freed its block, as the latest event |
| AllocatorThreads.PutAlone | lfy_dd_series/18-25-Filesystem/7_nov12/RealSFSInAction/real_sfs_ops.c:146-151 | a put left to itself takes three statements, frees exactly its block and gives the lock back |
| AllocatorThreads.GetAlone | lfy_dd_series/18-25-Filesystem/7_nov12/RealSFSInAction/real_sfs_ops.c:129-145 | a get left to itself finishes, takes exactly the least free block if there is one, and gives the lock back |
| AllocatorThreads.HolderFinishes | lfy_dd_series/18-25-Filesystem/7_nov12/RealSFSInAction/real_sfs_ops.c:129-151 | whenever the lock is taken its holder can take a step, and each of its steps brings it nearer to giving the lock back |
| BrowseData.TakeFreeTakes | lfy_dd_series/18-25-Filesystem/4_aug12/RealFS/browse_sfs.c:48-61 | allocations in a row give different blocks, all free before, as many as asked for or as there are |
| BrowseData.TakenAreLeast | lfy_dd_series/18-25-Filesystem/4_aug12/RealFS/browse_sfs.c:48-61 | allocations in a row give the least free blocks: a block is among n of them exactly when it is free and fewer than n free blocks lie below it |
| BrowseData.ReachesExactly | lfy_dd_series/18-25-Filesystem/4_aug12/RealFS/browse_sfs.c:245-251 | a write takes only blocks below 2^23 exactly when there are enough free ones below 2^23 |
| BrowseSfs.Input.Read | lfy_dd_series/18-25-Filesystem/4_aug12/RealFS/browse_sfs.c:238 | each read of input delivers any positive number of the bytes left, and 0 only at the end |
| BrowseSfs.Browser.GetDataBlock | lfy_dd_series/18-25-Filesystem/4_aug12/RealFS/browse_sfs.c:48-61 | the least free data block is marked and returned, or -1 |
| BrowseSfs.Browser.Lookup | lfy_dd_series/18-25-Filesystem/4_aug12/RealFS/browse_sfs.c:122-135 | the least live slot of that name, or -1 |
| BrowseSfs.Browser.Read | lfy_dd_series/18-25-Filesystem/4_aug12/RealFS/browse_sfs.c:180-208 | a readable file outputs its first size bytes, byte x from block x / 512, up to the first zero block number |
| BrowseSfs.Browser.Write | lfy_dd_series/18-25-Filesystem/4_aug12/RealFS/browse_sfs.c:209-278 | for every way the input is delivered, a write stores the size, blocks, map and bytes that `Wrote` gives |
| BrowseSfs.Browser.CopyInput | lfy_dd_series/18-25-Filesystem/4_aug12/RealFS/browse_sfs.c:233-261 | the loop stores whole blocks of input in the least free blocks until the input, the entry or the file system ends |
| BrowseSfs.Browser.WritePartial | lfy_dd_series/18-25-Filesystem/4_aug12/RealFS/browse_sfs.c:262-272 | the last, partial block is stored, or -1 is left in the entry when no block is free |
| BrowseSfs.WriteResult | lfy_dd_series/18-25-Filesystem/4_aug12/RealFS/browse_sfs.c:233-274 | size, number of blocks and failure of a write for each way its loop can end |
| BrowseTheorems.WriteThenRead | lfy_dd_series/18-25-Filesystem/4_aug12/RealFS/browse_sfs.c:180-278 | after a write the size is min(length, 512 * min(9, free blocks)) and a read gives exactly that prefix of the input |
| BrowseTheorems.WriteKeepsOtherFiles | lfy_dd_series/18-25-Filesystem/4_aug12/RealFS/browse_sfs.c:224-277 | every other entry is unchanged and every other file reads back the same |
| BrowseTheorems.WriteKeepsConsistentExactly | lfy_dd_series/18-25-Filesystem/4_aug12/RealFS/browse_sfs.c:224-277 | a write keeps map and table in agreement with no block shared exactly when the last allocation does not fail and the file uses at least as many blocks as it had |
| BrowseTheorems.WriteAgreesExactly | lfy_dd_series/18-25-Filesystem/4_aug12/RealFS/browse_sfs.c:224-277 | entries stay sound exactly when the last allocation does not fail, and then the map is what a mount would build exactly when every old block left behind has fewer free blocks below it than the write uses |
| BrowseTheorems.FewerBlocksBreak | lfy_dd_series/18-25-Filesystem/4_aug12/RealFS/browse_sfs.c:224-277 | when a file uses fewer blocks than it had and the map agrees all the same, the entry names a block twice |
| BrowseTheorems.EmptyWriteDisagrees | lfy_dd_series/18-25-Filesystem/4_aug12/RealFS/browse_sfs.c:224-277 | writing no input to a file that has a block always breaks the agreement: the entry keeps its block numbers and the blocks are free |
| BrowseTheorems.StaleBlockIsFree | lfy_dd_series/18-25-Filesystem/4_aug12/RealFS/browse_sfs.c:224-277 | a block left behind with enough free blocks below it is still in the file's chain and free for the next file |
| BrowseTheorems.OwnPositionExactly | lfy_dd_series/18-25-Filesystem/4_aug12/RealFS/browse_sfs.c:201 | a block is reached at its own address exactly when its number is below 2^23 |
| BrowseTheorems.WrittenBlock | lfy_dd_series/18-25-Filesystem/4_aug12/RealFS/browse_sfs.c:247-248 | writing block b changes block b modulo 2^23 and no other, so the first block beyond reach overwrites the superblock |
| BlockingOpen.OneHolderExactly | device_driver_examples/lkm5/sleep.c:125-186 | over every run at most one open is past the loop and not closed, and the flag says whether the file is held, exactly when no open finds the flag clear while another stands between finding it clear and setting it |
| BlockingOpen.OvertakenBothHold | device_driver_examples/lkm5/sleep.c:125-186 | whenever one open overtakes another in this way, both can go on to hold the file |
| BlockingOpen.RefsAreExact | device_driver_examples/lkm5/sleep.c:119-208 | in every reachable state the reference count is the number of opens between get and put, and the flag is set only while somebody holds the file |
| BlockingOpen.SleepersWillWake | device_driver_examples/lkm5/sleep.c:125-136 | in every reachable state a sleeping process has no signal pending, and the file is held or a closer is about to wake it |
| BlockingOpen.FailedOpenLeavesNothing | device_driver_examples/lkm5/sleep.c:111-175 | an open about to return -EAGAIN or -EINTR leaves no reference, no queue entry and no change to the flag or to any other process, whoever else is inside |
| BlockingOpen.NothingLeftBehind | device_driver_examples/lkm5/sleep.c:111-208 | when every process is outside again, no reference, flag or queue entry is left |
| NonblockingOpen.NonblockingWaitsExactly | device_driver_examples/lkm5/sleep.c:111-136 | over every run, an open with O_NONBLOCK enters the wait at the head of its loop exactly when another process took the file after the open's own test and nobody has given it back; otherwise it leaves the loop |
| NonblockingOpen.NonblockingWaitMeansTaken | device_driver_examples/lkm5/sleep.c:111-136 | over every run, wherever in the wait an open with O_NONBLOCK stands, another process took the file between its test and its loop head and kept it |
| NonblockingOpen.NonblockingOpenCanSleep | device_driver_examples/lkm5/sleep.c:111-136 | a run in which an open with O_NONBLOCK sleeps, because the file is taken between its test and the loop |
| NonblockingOpen.TwoCanHold | device_driver_examples/lkm5/sleep.c:125-186 | a run at whose end two processes hold the file |
| NonblockingOpen.SleepsExactly | device_driver_examples/lkm5/sleep.c:125-136 | an open left to itself at the head of its loop falls asleep exactly when the flag is set and no signal is pending |
| NonblockingOpen.ReturnsEintrExactly | device_driver_examples/lkm5/sleep.c:157-175 | over every run, a wait that is over ends in -EINTR exactly when the process got a signal that its own signal words show and has not handled it; otherwise the loop goes on |
| NonblockingOpen.InterruptedExactly | device_driver_examples/lkm5/sleep.c:125-175 | with the flag set and a signal pending, an open left to itself is on its way to -EINTR after one round exactly when its own signal words show the signal; otherwise it is where it was and nothing has changed |
| NonblockingOpen.GoesRoundForever | device_driver_examples/lkm5/sleep.c:125-175 | an open whose pending signal its signal words do not show neither sleeps nor returns, however many rounds it runs |
| NonblockingOpen.HiddenSignalIsReachable | device_driver_examples/lkm5/sleep.c:125-175 | a run that leads to such an open |
| OpenOutcomes.FailsOnlyWithReason | device_driver_examples/lkm5/sleep.c:111-175 | over every run, an open returns an error only with O_NONBLOCK while the flag is set, or after a signal that its signal words show |
| OpenOutcomes.EagainExactly | device_driver_examples/lkm5/sleep.c:111-112 | an open returns -EAGAIN at its test exactly with O_NONBLOCK and the flag set |
| OpenOutcomes.FreeFileOpens | device_driver_examples/lkm5/sleep.c:109-187 | opening a free file succeeds in four statements, with or without O_NONBLOCK, and takes one reference |
| OpenOutcomes.ComesStraightBack | device_driver_examples/lkm5/sleep.c:125-136 | an open that finds the flag clear as soon as it enters the wait takes the file without going on the queue |
| OpenOutcomes.WokenTakesFile | device_driver_examples/lkm5/sleep.c:125-187 | a woken sleeper that finds the file free takes it |
| OpenOutcomes.WokenTooLateSleepsAgain | device_driver_examples/lkm5/sleep.c:194-199 | a woken sleeper that finds the file taken goes back to sleep |
| OpenOutcomes.CloseFrees | device_driver_examples/lkm5/sleep.c:192-211 | a close clears the flag, gives its reference back, wakes every sleeper and disturbs nobody else |
| OpenOutcomes.CloseHandsOn | device_driver_examples/lkm5/sleep.c:192-211 | after a close a sleeper that takes its statements holds the file |
| OpenOutcomes.PendingStep | device_driver_examples/lkm5/sleep.c:136 | a signal is pending from when it is sent until the process handles its signals |
| RamBlock.RamDevice.TransferOut | lfy_dd_series/15_diskonrom/ram_block.c:53-104 | a segmented write is one copy of the whole sectors of its segments to the start sector |
| RamBlock.RamDevice.TransferIn | lfy_dd_series/15_diskonrom/ram_block.c:53-104 | a segmented read fills each segment's whole sectors from its place in the store and keeps the store |
| RamBlock.RamDevice.DeviceWrite | lfy_dd_series/15_diskonrom/ram_device.c:29-33 | the store changes in exactly the sectors given |
| RamBlock.RamDevice.DeviceRead | lfy_dd_series/15_diskonrom/ram_device.c:34-38 | the buffer gets exactly the sectors given |
| RamBlock.SuccessExactly | lfy_dd_series/15_diskonrom/ram_block.c:76-101 | the result is 0 exactly when every length is a multiple of 512 and the lengths add up to the request |
| RamBlock.WriteIsFlatCopy | lfy_dd_series/15_diskonrom/ram_block.c:72-103 | a successful write puts the joined segments into the request's sectors and touches no other |
| RamBlock.ReadIsFlatCopy | lfy_dd_series/15_diskonrom/ram_block.c:72-103 | the whole sectors a read fills, joined, are the flat bytes of the store |
| RamBlock.SegmentationDoesNotMatter | lfy_dd_series/15_diskonrom/ram_block.c:72-103 | writing with one segmentation and reading with any other gives the same bytes back |

## Left out

- BrowseSfs.Browser.Write: does not say what a write that takes blocks from number 2^23 on does to the volume, since that overwrites metadata; `WrittenBlock` says what each such block overwrites.
- BrowseSfs.Browser.Read: does not say what is read from blocks from number 2^23 on; `OwnPositionExactly` says which block is read in their place.
- Block sizes other than 512: no formatter of the repository writes any.
- The page cache, buffer heads and inode cache of the kernel: a page write is modelled as replacing the bytes of the mapped device block.
- `sfs_list`, `sfs_write_inode`, `sfs_fill_super`, `get_bit_pos` and the create, unlink and lookup wrappers of the VFS: plumbing around the operations modelled.
- Failing device I/O and memory allocation: the only I/O failures modelled are those that the address translation itself can cause.
- What longer runs do with names of more than 15 characters: for these only the two exact conditions on one creation are stated.
- Unlocked races between two calls of `sfs_get_block` on one entry: each file-system operation is one step, except in `AllocatorThreads`.
- The user-space create, remove, list and change of permissions: the same algorithms as the kernel's, except that creation stops at the first empty slot.
- Reading a user-space input that fails: the bytes before the failure are the input.
- `rb_request`, disk registration and the partition table of the RAM disk: `rb_request` only repeats `rb_transfer`.
- The message buffer, permissions and registration of the `sleep` module; `try_module_get` is taken to succeed.
- The other drivers, examples, notes and scripts of the repository.
