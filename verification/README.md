# Verification model of the wave player's storage and driver code

A Dafny model of four parts of this repository, with proofs:

* **FatFs R0.09** (`ff.c`): from the one-sector write-back window over the drive, through the packed FAT entries of FAT12,
  FAT16 and FAT32, the cluster chains with their allocator, files with a private sector buffer, and directories with long
  names, to formatting and mounting.
* **The JTAG UART fast driver**: two rings between threads and the interrupt routine.
* **System tick alarms**: deadlines in a wrapping counter.
* **The EPCQ flash writer**.

Check everything with `dafny verify dfyconfig.toml`.

## Layers

| file | content |
|---|---|
| `Bytes.dfy` | sectors, little-endian access, small arithmetic |
| `Geometry.dfy`, `Mount.dfy`, `Mkfs.dfy` | layout of a volume, mounting, formatting |
| `FatTable.dfy`, `Chains.dfy`, `Volume.dfy` | FAT entries on a disk image, chains over a table, the code over the window |
| `FileData.dfy`, `File.dfy`, `LinkMap.dfy` | bytes of a chain, an open file, fast seek |
| `LongName.dfy`, `ShortName.dfy`, `NumName.dfy` | names in directory entries |
| `DirTable.dfy`, `Directory.dfy`, `Root.dfy` | tables of entries, directories on the volume, the root directory of a new volume |
| `Beside.dfy`, `Session.dfy` | open files and directories beside each other; sessions over any number of open files |
| `Saving.dfy`, `Remount.dfy`, `Fresh.dfy` | from a path to the stored bytes and back; the same across a power failure, and from an unformatted drive on |
| `Formats.dfy` | the formats on the drive, byte by byte |
| `Ring.dfy`, `Uart.dfy` | ring buffers and the step system of the UART driver |
| `Alarms.dfy`, `Flash.dfy` | alarms, flash writer |

An open file refines a byte sequence with a cursor: `File.Content()` is the first `fsize` bytes of the sectors of the chain, with
the dirty buffer laid over its sector. A volume refines a sequence of sectors: `Volume.Logical()` is the drive with the dirty
window laid over it, and `Volume.Fat()` is its FAT, entry by entry. `Evolves` collects what an operation on one file or directory
leaves alone: other chains as sequences, every sector outside the FATs and its own, the exactness of the free count, and the window,
which does not end on a sector of another chain; `Beside` concludes that every other open file and directory stays as it is. A directory
refines a table of entries: `Dir.Table()`; `DirTables.WellFormed` holds of the root directory of a new volume and is kept by every creation.
`Saving.SaveAndLoad` runs through all of these layers: bytes saved under a new path are the bytes found under it, and
`FreshVolumes.FormatSaveRemount` starts from an unformatted drive and mounts it again in between. `Mounts.InBooks` says that the drive's
record leads to the volume and that its FSInfo sector has the free count or is due to be written; every operation on files and directories keeps it. `Sessions.Run` says of any sequence of requests to open files that each
file is a sequence of bytes of its own and that the FAT stays a forest of chains.

## What the code does not keep

The proofs follow the code where it departs from what one would expect:

* A boot record whose FAT size wraps at 32 bits is accepted (`Mounts.WrappedFatsAreAccepted`); `Mounts.MountConfines` says exactly
  when an accepted volume is confined.
* A FAT32 volume with more than 2^28 - 3 clusters mounts although its cluster numbers do not fit an entry
  (`Mounts.TooManyClustersAreAccepted`; `Mounts.MountedAreas` is the exact condition).
* A FAT32 boot record that names sector 0 as its FSInfo sector is accepted; once the free count has been determined, sync writes
  FSInfo over the boot sector, and the volume mounts no more (`Mounts.FsInfoOnBootSector`; `Mounts.SyncAndMount` is the exact
  condition).
* Formatting can succeed on a layout that leaves no cluster, which then does not mount (`Formatting.NoRoomExample`;
  `Formatting.FormatAndMount` is the exact condition).
* f_getfree caches a wrong count when it scans a FAT12 volume with a zero entry behind a reserved one, or a FAT16 or FAT32 volume
  whose entry 0 or 1 is zero (`Chains.WrongCountExamples`), and only then (`Volumes.Volume.GetFree`).
* Long names of 254 and 255 units can be stored but not read back, and those of 255 units not found, so that the same name can
  be created again (`LongNames.LongNameRoundTrip`, `LongNames.LongNamesCompare`, `Directories.FindOrRegister`).
* The table for fast seek is refused when the last link of the chain equals the number behind the last cluster of the volume
  (`LinkMaps.CreateLinkMap`). The end marks that the format defines do not equal it on FAT12 and FAT16
  (`LinkMaps.MarksDoNotRunOff`).
* An alarm of 2^32 - 1 ticks fires on the next tick (`Alarms.LongestIntervalFiresAtOnce`), unless it is started when the counter
  is at its maximum; all others fire exactly when due (`Alarms.FiresExactly`). After that its next period is one tick short, and if
  its callback asks for single ticks it misses a whole turn of the counter when that reaches its maximum (`Alarms.OverdueTick`).
* A flash write that ends with the last byte is refused (`Flash.Epcq.LastByteIsRefused`). One in front of the memory is accepted
  (`Flash.Epcq.NegativeOffsetAccepted`), and so is one behind the memory or across its end if the end of the data wraps past 2^32;
  these report success after writing only what lies in the memory (`Flash.Epcq.AllIsWritten`).
* A block write to the flash programs another sector than the one it names when its data offset lies in front of that sector or
  far enough behind it for the length check to wrap (`Flash.Epcq.OtherSectorsAccepted`, `Flash.Epcq.StaysInSector`).
* The FAT sub-type thresholds are those of the code (4086 and 65526), not those of the FAT32 File System Specification.

## Conventions

* Machine integers are subset types of `int`; wrap-around is written out where it can occur. Masks with a power of two minus one
  are written as remainders, and the test `n & (n - 1)` as `IsPowerOfTwo` (`Bytes.BitTest` compares the two on bytes).
* A drive is a sequence of sectors. Reads and writes inside it succeed; formatting and mounting report a disk error for a sector
  behind its end.
* Times, callbacks (`Alarm -> dword`), upper-casing (`word -> word`, mapping 0 and only 0 to 0) and the erase block size a drive
  reports are parameters.
* Ghost fields of a class (`chain`, `cur`) name the clusters that the code only finds by following the FAT.

## Model

| member | source | states |
|---|---|---|
| `Bytes.WordRoundTrip` | qsf/software/cineraria_wavplay/mmcfs/fatfs/ff.h:327-329 | a 16-bit store reads back as the value modulo 2^16 |
| `Bytes.DwordRoundTrip` | qsf/software/cineraria_wavplay/mmcfs/fatfs/ff.h:328-330 | a 32-bit store reads back as the value modulo 2^32 |
| `Bytes.StoresBeside` | qsf/software/cineraria_wavplay/mmcfs/fatfs/ff.h:327-330 | a store leaves every word and double word beside it as it was |
| `Bytes.UnsignedDistance` | qsf/software/cineraria_wavplay/mmcfs/fatfs/ff.c:2430-2430 | the unsigned test `dsect - sect < cc` holds exactly for the sectors of the transfer, although the subtraction wraps |
| `Geometry.ClusterInsideVolume` | qsf/software/cineraria_wavplay/mmcfs/fatfs/ff.c:801-809 | every sector of a cluster lies behind the FATs and inside the volume |
| `Geometry.ClustersDisjoint` | qsf/software/cineraria_wavplay/mmcfs/fatfs/ff.c:801-809 | no two clusters share a sector |
| `FatTable.Entry16InSector` | qsf/software/cineraria_wavplay/mmcfs/fatfs/ff.c:840-843 | a 16-bit entry lies in one sector of the first FAT, at the place get_fat computes |
| `FatTable.Entry32InSector` | qsf/software/cineraria_wavplay/mmcfs/fatfs/ff.c:845-848 | a 32-bit entry lies in one sector of the first FAT, and its low 28 bits are the entry |
| `FatTable.WriteThroughSplices` | qsf/software/cineraria_wavplay/mmcfs/fatfs/ff.c:727-740 | a changed FAT sector, written to every copy, changes exactly those bytes of the table and keeps the copies equal |
| `FatTable.PutThenGet` | qsf/software/cineraria_wavplay/mmcfs/fatfs/ff.c:819-913 | read over write on all three encodings: a stored entry reads as the value cut to 12, 16 or 28 bits, every other entry as before |
| `FatTable.PackKeepsNeighbour` | qsf/software/cineraria_wavplay/mmcfs/fatfs/ff.c:878-890 | FAT12 entries that share a byte keep their four bits of it |
| `FatTable.ReservedBitsKept` | qsf/software/cineraria_wavplay/mmcfs/fatfs/ff.c:899-905 | the top four bits of a FAT32 entry survive a store of a 28-bit value |
| `FatTable.ReservedBitsJoin` | qsf/software/cineraria_wavplay/mmcfs/fatfs/ff.c:899-905 | for any value, a reserved bit is set afterwards if and only if it was or the value sets it |
| `FatTable.DataWriteKeepsFat` | qsf/software/cineraria_wavplay/mmcfs/fatfs/ff.c:719-751 | a write behind the FATs changes no entry and no copy |
| `Chains.ZerosCountFree` | qsf/software/cineraria_wavplay/mmcfs/fatfs/ff.c:3093-3129 | the count of zero entries is the number of free clusters, plus one for each of entries 0 and 1 that is zero |
| `Chains.FreeBeforeReserved` | qsf/software/cineraria_wavplay/mmcfs/fatfs/ff.c:3099-3106 | a scan that stops at the first reserved entry has counted all free clusters if and only if no entry behind it is zero |
| `Chains.WrongCountExamples` | qsf/software/cineraria_wavplay/mmcfs/fatfs/ff.c:3093-3129 | a FAT12 table whose scan counts too few free clusters, and a FAT16 table of 4086 clusters whose scan counts one too many |
| `Chains.LinkedStretches` | qsf/software/cineraria_wavplay/mmcfs/fatfs/ff.c:1012-1015 | a stretched chain is the old one and exactly the new cluster behind it |
| `Chains.LinkedKeepsOthers` | qsf/software/cineraria_wavplay/mmcfs/fatfs/ff.c:1012-1015 | an allocation leaves every chain that does not end in the stretched cluster as it was |
| `Chains.LinkedTakesOne` | qsf/software/cineraria_wavplay/mmcfs/fatfs/ff.c:1012-1021 | an allocation takes exactly one cluster out of the free set |
| `Chains.GrewKeepsOthers` | qsf/software/cineraria_wavplay/mmcfs/fatfs/ff.c:977-1027 | growing one chain any number of times leaves every chain disjoint from it as it was |
| `Chains.GrewKeepsForest` | qsf/software/cineraria_wavplay/mmcfs/fatfs/ff.c:977-1027 | growing one chain of a forest, or a new one, any number of times gives the forest with the grown chain in place of the old one |
| `Chains.GrewReserved` | qsf/software/cineraria_wavplay/mmcfs/fatfs/ff.c:977-1027 | growing a chain neither makes nor removes a reserved entry |
| `Chains.RemoveFromChain` | qsf/software/cineraria_wavplay/mmcfs/fatfs/ff.c:925-967 | removal from the head of a chain frees exactly its clusters |
| `Chains.RemoveFromReaches` | qsf/software/cineraria_wavplay/mmcfs/fatfs/ff.c:936-963 | on any table, with cycles and cross-links, removal frees only what the links from its start reach |
| `Chains.RemoveFromStep` | qsf/software/cineraria_wavplay/mmcfs/fatfs/ff.c:936-963 | each continuing iteration turns one non-zero entry to zero, which is why removal terminates on any table |
| `Chains.RemoveFromFrees` | qsf/software/cineraria_wavplay/mmcfs/fatfs/ff.c:936-963 | the freed clusters join the free set, and no others do |
| `Chains.CallKeepsForest` | qsf/software/cineraria_wavplay/mmcfs/fatfs/ff.c:925-1027 | create_chain(0), create_chain(tail) and remove_chain(head) keep the FAT a set of disjoint, acyclic, complete chains |
| `Chains.SearchIsStep` | qsf/software/cineraria_wavplay/mmcfs/fatfs/ff.c:998-1015 | in such a table every outcome of the allocation search is one of these steps; the error outcome does not occur |
| `Chains.RunKeepsForest` | qsf/software/cineraria_wavplay/mmcfs/fatfs/ff.c:925-1027 | after any sequence of these calls the table consists of exactly the chains the calls account for |
| `Volumes.Volume.WriteBack` | qsf/software/cineraria_wavplay/mmcfs/fatfs/ff.c:727-740 | the dirty window goes to its sector and to every FAT copy; drive and logical disk are then the same |
| `Volumes.Volume.MoveWindow` | qsf/software/cineraria_wavplay/mmcfs/fatfs/ff.c:719-751 | the logical disk does not change, the window shows the requested sector, and sector 0 leaves nothing dirty |
| `Volumes.Volume.GetFat` | qsf/software/cineraria_wavplay/mmcfs/fatfs/ff.c:819-851 | the FAT entry for a cluster number in range, 1 otherwise, through the window |
| `Volumes.Volume.PutFat12` | qsf/software/cineraria_wavplay/mmcfs/fatfs/ff.c:878-890 | exactly the two bytes of a FAT12 entry change, even across a sector boundary |
| `Volumes.Volume.PutFat` | qsf/software/cineraria_wavplay/mmcfs/fatfs/ff.c:862-913 | the entry becomes the value cut to its width; no other entry and nothing outside the FATs changes; out of range is an internal error |
| `Volumes.Volume.RemoveChain` | qsf/software/cineraria_wavplay/mmcfs/fatfs/ff.c:925-967 | what the code frees on any table, its result code, that a correct free count stays correct, and that a changed one is noted for FSInfo |
| `Volumes.Volume.FindFree` | qsf/software/cineraria_wavplay/mmcfs/fatfs/ff.c:998-1010 | the first free cluster in cyclic order; 0 only if no cluster is free, 1 only on a reserved entry |
| `Volumes.Volume.CreateChain` | qsf/software/cineraria_wavplay/mmcfs/fatfs/ff.c:977-1027 | an existing successor, an allocation at the first free cluster, disk full or an error, each with its exact table; the free count stays correct, and is noted for FSInfo when it changes |
| `Volumes.CreateInForest` | qsf/software/cineraria_wavplay/mmcfs/fatfs/ff.c:977-1027 | on a forest of chains the code takes a legal step and never reports an error |
| `Volumes.RemoveInForest` | qsf/software/cineraria_wavplay/mmcfs/fatfs/ff.c:925-967 | on a forest of chains the code removes exactly the named chain |
| `Volumes.Volume.CountFree12` | qsf/software/cineraria_wavplay/mmcfs/fatfs/ff.c:3099-3106 | the number of free clusters, or an error at the first reserved entry |
| `Volumes.Volume.CountFreeRaw` | qsf/software/cineraria_wavplay/mmcfs/fatfs/ff.c:3107-3126 | the raw sector scan counts the free clusters, and entries 0 and 1 if they are zero |
| `Volumes.Volume.GetFree` | qsf/software/cineraria_wavplay/mmcfs/fatfs/ff.c:3077-3132 | the cached count if plausible, else a scan; afterwards the cached count is right if and only if it was (when plausible), on FAT12 no zero entry lies behind a reserved one, on FAT16 and FAT32 entries 0 and 1 are not zero |
| `Volumes.Volume.Sync` | qsf/software/cineraria_wavplay/mmcfs/fatfs/ff.c:761-787 | the drive alone holds the logical disk, FSInfo holds the hints, and no entry changed |
| `Volumes.Volume.ClearCluster` | qsf/software/cineraria_wavplay/mmcfs/fatfs/ff.c:1147-1156 | every sector of the new cluster is zero, everything else as before, and the window is back on its first sector |
| `Mounts.MountConfines` | qsf/software/cineraria_wavplay/mmcfs/fatfs/ff.c:2083-2130 | the areas of an accepted volume are in order, disjoint and inside it if and only if the system area and the end of the volume have 32-bit sector numbers |
| `Mounts.WrappedFatsAreAccepted` | qsf/software/cineraria_wavplay/mmcfs/fatfs/ff.c:2086-2104 | a record whose FAT sizes wrap to 0 is accepted |
| `Mounts.MountedAreas` | qsf/software/cineraria_wavplay/mmcfs/fatfs/ff.c:2083-2130 | on such a volume the FAT has room for every entry and no cluster number reads as an end mark: always on FAT12/16, on FAT32 if and only if cluster numbers have 28 bits |
| `Mounts.TooManyClustersAreAccepted` | qsf/software/cineraria_wavplay/mmcfs/fatfs/ff.c:2083-2130 | a FAT32 record with 0x11000000 sectors is accepted although its cluster numbers pass for end marks |
| `Mounts.ChkMounted` | qsf/software/cineraria_wavplay/mmcfs/fatfs/ff.c:2054-2153 | the result, the layout and the hints, and that the free count is the one of the FSInfo sector; if the areas fit on the drive, FAT32 cluster numbers have 28 bits, FSInfo is a reserved sector and the FAT copies agree, the new volume is consistent and shows the drive as it is |
| `Mounts.HintsSurvive` | qsf/software/cineraria_wavplay/mmcfs/fatfs/ff.c:2137-2148 | the hints in an FSInfo sector written by sync are those read back from it |
| `Mounts.FsInfoOnBootSector` | qsf/software/cineraria_wavplay/mmcfs/fatfs/ff.c:2137-2148 | an accepted FAT32 record whose FSInfo sector is the boot sector |
| `Mounts.SyncAndMount` | qsf/software/cineraria_wavplay/mmcfs/fatfs/ff.c:761-787 | after sync the drive mounts again with the same layout, table, contents and hints if and only if FSInfo was not written over sector 0 or the boot record; a free count that was right and noted is right again |
| `Mounts.BooksKept` | qsf/software/cineraria_wavplay/mmcfs/fatfs/ff.c:977-1027 | changes behind the reserved sectors keep the record and the noted free count |
| `Mounts.BooksSynced` | qsf/software/cineraria_wavplay/mmcfs/fatfs/ff.c:761-787 | so does sync, which writes the free count where the next mount reads it |
| `Formatting.FatStillFits` | qsf/software/cineraria_wavplay/mmcfs/fatfs/ff.c:3615-3653 | the FAT sized before alignment is large enough for the final cluster count, FAT12 rounding included |
| `Formatting.RecordDescribesPlan` | qsf/software/cineraria_wavplay/mmcfs/fatfs/ff.c:3690-3727 | the boot record that is written is read back as the layout that was decided, or refused if no cluster is left |
| `Formatting.Format` | qsf/software/cineraria_wavplay/mmcfs/fatfs/ff.c:3556-3784 | the written drive sector by sector; success exactly for a valid cluster size on a drive of 128 sectors or more for which a layout exists whose system areas lie on the drive; each error with its exact cause |
| `Formatting.MkfsThenMount` | qsf/software/cineraria_wavplay/mmcfs/fatfs/ff.c:3556-3784 | a formatted drive mounts with the same FAT type, entry count and area starts if and only if the aligned layout left a cluster |
| `Formatting.NoRoomExample` | qsf/software/cineraria_wavplay/mmcfs/fatfs/ff.c:3638-3653 | with the erase block of this drive's driver, formatting 150 sectors succeeds, and the volume is then refused for want of a cluster |
| `Formatting.FormattedEntries` | qsf/software/cineraria_wavplay/mmcfs/fatfs/ff.c:3733-3754 | the fresh table: nothing in use but the reserved entries and the FAT32 root directory |
| `Formatting.FreshIsForest` | qsf/software/cineraria_wavplay/mmcfs/fatfs/ff.c:3733-3754 | the fresh table is a forest of at most the root directory, all else free |
| `Formatting.FormatAndMount` | qsf/software/cineraria_wavplay/mmcfs/fatfs/ff.c:3556-3784 | with a valid cluster size on a drive of 128 sectors or more, format and mount succeed exactly if there is a layout and it leaves a cluster; the result is a consistent volume, found by its record, with a forest of chains and a correct free count; a layout without a cluster is refused by the mount |
| `FileData.SectorsDistinct` | qsf/software/cineraria_wavplay/mmcfs/fatfs/ff.c:801-809 | no two offsets of a file share a sector |
| `FileData.EveryChainIsAFile` | qsf/software/cineraria_wavplay/mmcfs/fatfs/ff.c:801-809 | the sectors of a complete chain are distinct data sectors of the volume |
| `FileData.PutRunBytes` | qsf/software/cineraria_wavplay/mmcfs/fatfs/ff.c:2533-2551 | a direct write of consecutive sectors replaces exactly that stretch of the file |
| `FileData.OverlaidRead` | qsf/software/cineraria_wavplay/mmcfs/fatfs/ff.c:2419-2436 | a direct read with the dirty buffer laid over its sector gives the bytes of the file |
| `FileData.ClusterOfPointer` | qsf/software/cineraria_wavplay/mmcfs/fatfs/ff.c:2887-2892 | rounding the pointer down to a cluster finds the start of the current cluster |
| `Files.File.Open` | qsf/software/cineraria_wavplay/mmcfs/fatfs/ff.c:2351-2361 | a valid file at offset 0 with the content the directory entry describes |
| `Files.File.Read` | qsf/software/cineraria_wavplay/mmcfs/fatfs/ff.c:2373-2464 | exactly the bytes from the pointer to the end of the request or the file; content, table and pointer otherwise unchanged |
| `Files.File.Write` | qsf/software/cineraria_wavplay/mmcfs/fatfs/ff.c:2474-2584 | the written bytes replace exactly the stretch behind the pointer; short only when the disk is full or the size would reach 4 GB; an internal error only if the table had a reserved entry before; other chains, other sectors and the free count are kept, and the window is left on no sector of another chain |
| `Files.File.Lseek` | qsf/software/cineraria_wavplay/mmcfs/fatfs/ff.c:2874-2952 | the pointer moves to the target, or short of it only on a full disk; existing bytes stay; the file grows only in write mode; an internal error only if the table had a reserved entry before |
| `Files.File.Sync` | qsf/software/cineraria_wavplay/mmcfs/fatfs/ff.c:2593-2629 | the drive alone holds the content, the directory entry has start cluster and size, all other sectors from the FAT on and the table are unchanged |
| `Files.CloseAndReopen` | qsf/software/cineraria_wavplay/mmcfs/fatfs/ff.c:2640-2668 | a file opened from the entry that was written has the same content |
| `Files.UpdatedEntrySize` | qsf/software/cineraria_wavplay/mmcfs/fatfs/ff.c:2615-2620 | the entry reads back the size |
| `Files.UpdatedEntryCluster` | qsf/software/cineraria_wavplay/mmcfs/fatfs/ff.c:2615-2620 | the entry reads back the start cluster from its two halves |
| `Files.UpdatedEntryTime` | qsf/software/cineraria_wavplay/mmcfs/fatfs/ff.c:2618-2620 | the entry reads back the write time |
| `Files.UpdatedEntryKeeps` | qsf/software/cineraria_wavplay/mmcfs/fatfs/ff.c:2615-2620 | all other bytes of the entry and its sector are kept |
| `Files.DirSectorStaysApart` | qsf/software/cineraria_wavplay/mmcfs/fatfs/ff.c:2593-2629 | a directory sector of another chain never becomes a sector of the file, however it grows |
| `Beside.OthersAreKept` | qsf/software/cineraria_wavplay/mmcfs/fatfs/ff.c:977-1027 | what an operation on one file or directory does to table, sectors and window leaves the chain and the sectors of any other file as they were |
| `Beside.ReadBeside` | qsf/software/cineraria_wavplay/mmcfs/fatfs/ff.c:2373-2464 | f_read keeps every other open file on a chain of its own valid, with its content |
| `Beside.WriteBeside` | qsf/software/cineraria_wavplay/mmcfs/fatfs/ff.c:2474-2584 | so does f_write, also when it fails for want of space; the one other outcome is a FAT entry reserved before the call |
| `Beside.SeekBeside` | qsf/software/cineraria_wavplay/mmcfs/fatfs/ff.c:2874-2952 | so does f_lseek, also when it lets the file grow |
| `Beside.SyncBeside` | qsf/software/cineraria_wavplay/mmcfs/fatfs/ff.c:2593-2629 | so does f_sync, if the directory sector is none of the other file's |
| `Beside.DirKept` | qsf/software/cineraria_wavplay/mmcfs/fatfs/ff.c:977-1027 | what an operation on a file does to the volume keeps every directory and its table |
| `Beside.WriteBesideDir` | qsf/software/cineraria_wavplay/mmcfs/fatfs/ff.c:2474-2584 | f_write keeps the directory and its table |
| `Beside.OpenOrCreateBeside` | qsf/software/cineraria_wavplay/mmcfs/fatfs/ff.c:2279-2289 | looking up or creating a name keeps every open file and its content, whatever comes out of it |
| `Beside.RecordKept` | qsf/software/cineraria_wavplay/mmcfs/fatfs/ff.c:977-1027 | an operation on a file or directory behind the reserved sectors keeps the boot record that the volume was mounted from |
| `Beside.FileBooks` | qsf/software/cineraria_wavplay/mmcfs/fatfs/ff.c:2373-2952 | whatever an operation on a file does to the volume, the record leads to it and the free count is on the drive or noted |
| `Beside.DirBooks` | qsf/software/cineraria_wavplay/mmcfs/fatfs/ff.c:977-1027 | so does whatever an operation on a directory does |
| `Sessions.Serve` | qsf/software/cineraria_wavplay/mmcfs/fatfs/ff.c:2373-2952 | one read, write or seek on one of any number of open files: answered as by a sequence of bytes with a cursor, short only on a full disk or at 4 GB; every other file keeps content and pointer; the FAT stays a forest |
| `Sessions.Run` | qsf/software/cineraria_wavplay/mmcfs/fatfs/ff.c:2373-2952 | the same over any sequence of requests: every reply is Ok or Denied, the internal error never occurs; the free count stays right and noted |
| `LinkMaps.ClmtClust` | qsf/software/cineraria_wavplay/mmcfs/fatfs/ff.c:1038-1055 | the cluster of the chain at the given offset, 0 behind its end |
| `LinkMaps.WalkFindsChain` | qsf/software/cineraria_wavplay/mmcfs/fatfs/ff.c:1038-1055 | following the FAT from the start cluster reaches the same clusters |
| `LinkMaps.NextByMap` | qsf/software/cineraria_wavplay/mmcfs/fatfs/ff.c:2402-2411 | on a cluster boundary the table gives the cluster that the FAT links to |
| `LinkMaps.CreateLinkMap` | qsf/software/cineraria_wavplay/mmcfs/fatfs/ff.c:2821-2844 | the table maps the chain, its length is 2 * fragments + 2, no store goes past the given size; fails exactly if the last link reads as the cluster behind the volume |
| `LinkMaps.RunsOffExample` | qsf/software/cineraria_wavplay/mmcfs/fatfs/ff.c:2829-2834 | a complete chain for which the table is refused |
| `LinkMaps.MarksDoNotRunOff` | qsf/software/cineraria_wavplay/mmcfs/fatfs/ff.c:2829-2834 | a chain that ends in a mark the format defines is never refused on FAT12 and FAT16, on FAT32 only if cluster numbers reach the marks |
| `LinkMaps.FastSeek` | qsf/software/cineraria_wavplay/mmcfs/fatfs/ff.c:2846-2870 | the pointer moves to the target or the end of the file, with the file state as valid as before and nothing allocated |
| `LinkMaps.PointerDeterminesCluster` | qsf/software/cineraria_wavplay/mmcfs/fatfs/ff.c:2846-2916 | the pointer determines the current cluster, so both ways to seek end in the same state |
| `LongNames.FitLfn` | qsf/software/cineraria_wavplay/mmcfs/fatfs/ff.c:1249-1274 | the entry holds its 13 units of the name, zero, fillers, checksum and order, marked if the name ends in it |
| `LongNames.PickLfn` | qsf/software/cineraria_wavplay/mmcfs/fatfs/ff.c:1216-1244 | succeeds exactly on entries that fit the buffer, and stores exactly their units and the terminator |
| `LongNames.LongNameRoundTrip` | qsf/software/cineraria_wavplay/mmcfs/fatfs/ff.c:1216-1274 | the entries of a name give it back exactly up to 253 units, and are refused above, whatever the buffer held |
| `LongNames.CmpLfn` | qsf/software/cineraria_wavplay/mmcfs/fatfs/ff.c:1185-1213 | true exactly when every unit up to the zero, the fillers and the end agree |
| `LongNames.LongNamesCompare` | qsf/software/cineraria_wavplay/mmcfs/fatfs/ff.c:1185-1213 | all entries match if and only if the names are equal after upper-casing and have at most 254 units, whatever lies behind the terminator |
| `NumberedNames.GenNumName` | qsf/software/cineraria_wavplay/mmcfs/fatfs/ff.c:1285-1322 | the n-th short name for a long name: cut body, tilde and hexadecimal number, old extension; above 5 the number is hashed with the long name |
| `NumberedNames.HashKeepsApart` | qsf/software/cineraria_wavplay/mmcfs/fatfs/ff.c:1298-1300 | the hash with a name never makes two numbers equal |
| `NumberedNames.NumberReadsBack` | qsf/software/cineraria_wavplay/mmcfs/fatfs/ff.c:1302-1321 | the number is read back out of the name; the extension is kept, the first character kept or a tilde |
| `NumberedNames.NumberedDiffer` | qsf/software/cineraria_wavplay/mmcfs/fatfs/ff.c:1285-1322 | the short names for one long name differ: numbers up to 5 among each other, hashed ones among each other |
| `NumberedNames.CutKeepsCharacters` | qsf/software/cineraria_wavplay/mmcfs/fatfs/ff.c:1312-1318 | the body is cut between characters, never inside a double-byte one, and no earlier than needed |
| `DirTables.SumShortName` | qsf/software/cineraria_wavplay/mmcfs/fatfs/ff.c:1333-1342 | the rotating sum over the eleven bytes |
| `DirTables.SumRotates` | qsf/software/cineraria_wavplay/mmcfs/fatfs/ff.c:1333-1342 | one round of the checksum is a rotation to the right by one bit, and the next byte added |
| `DirTables.SumExample` | qsf/software/cineraria_wavplay/mmcfs/fatfs/ff.c:1333-1342 | the checksum of MUSIC_~1.WAV is 7D |
| `DirTables.RegisteredIsFound` | qsf/software/cineraria_wavplay/mmcfs/fatfs/ff.c:1353-1403 | a registered name that was not in the table is found at its short entry if and only if no end of the table lies in front of it |
| `DirTables.FindIsFirst` | qsf/software/cineraria_wavplay/mmcfs/fatfs/ff.c:1353-1403 | the search ends at an entry if and only if it is the first in front of the end of the table that carries the name: by its short name, or behind a complete run of matching parts with falling numbers and its checksum |
| `DirTables.StoredNameCarries` | qsf/software/cineraria_wavplay/mmcfs/fatfs/ff.c:1353-1403 | an entry stored with a long name carries the name searched for if and only if the two are equal up to case and below 255 units, or its short name is the one searched for |
| `DirTables.StoredNameIsFound` | qsf/software/cineraria_wavplay/mmcfs/fatfs/ff.c:1353-1403 | a stored name in front of the end is found under every spelling that is equal up to case, and the entry is found under no other long name |
| `DirTables.OthersFoundAsBefore` | qsf/software/cineraria_wavplay/mmcfs/fatfs/ff.c:1353-1403 | registration of a name changes no search for another name, found or not; a name of 255 units counts as another name for every search |
| `DirTables.RegisteredKeeps` | qsf/software/cineraria_wavplay/mmcfs/fatfs/ff.c:1471-1566 | registration under a new short name keeps the table well formed: zero-terminated, long-name entries followed by their short entry, no short name twice |
| `DirTables.SameNamesFind` | qsf/software/cineraria_wavplay/mmcfs/fatfs/ff.c:1353-1403 | rewriting fields of entries outside the names changes no search |
| `DirTables.ShortSearchDecides` | qsf/software/cineraria_wavplay/mmcfs/fatfs/ff.c:1353-1403 | the search without a long name succeeds if and only if an object has the short name |
| `DirTables.NotFoundNotThere` | qsf/software/cineraria_wavplay/mmcfs/fatfs/ff.c:1353-1403 | a failed search has seen no object with the searched short name in front of the end of the table |
| `DirTables.LossySearchIgnores` | qsf/software/cineraria_wavplay/mmcfs/fatfs/ff.c:1393-1393 | a short name marked as lossy plays no part in the search |
| `DirTables.AllTakenIsCrowded` | qsf/software/cineraria_wavplay/mmcfs/fatfs/ff.c:1489-1499 | when the search for a number gives up, 94 different entries carry short names generated for this one long name |
| `DirTables.SearchPasses` | qsf/software/cineraria_wavplay/mmcfs/fatfs/ff.c:1368-1401 | the search passes entries that are not the name, in whatever state they leave it |
| `Directories.StoreOne` | qsf/software/cineraria_wavplay/mmcfs/fatfs/ff.c:1065-1104 | an entry overwritten in its sector changes that entry of the table only |
| `Directories.Dir.Sdi` | qsf/software/cineraria_wavplay/mmcfs/fatfs/ff.c:1065-1104 | the cursor is on the sector and cluster of the entry, or an error exactly if the table has no such entry |
| `Directories.Dir.Next` | qsf/software/cineraria_wavplay/mmcfs/fatfs/ff.c:1113-1170 | the next entry; a stretched table has grown by empty entries; every way to fail with its reason; other chains and sectors kept |
| `Directories.Dir.Stretch` | qsf/software/cineraria_wavplay/mmcfs/fatfs/ff.c:1139-1156 | one formerly free cluster of empty entries joins the table |
| `Directories.Dir.Find` | qsf/software/cineraria_wavplay/mmcfs/fatfs/ff.c:1353-1403 | stops at the first entry that carries the name, exactly if there is one in front of the end of the table |
| `Directories.Dir.Reserve` | qsf/software/cineraria_wavplay/mmcfs/fatfs/ff.c:1508-1523 | the first run of unused entries in the table, grown by empty entries if there was none; fails exactly if there is none and the table cannot grow: it is static or has 65536 entries, the disk is full, or an entry is reserved |
| `Directories.CountEntries` | qsf/software/cineraria_wavplay/mmcfs/fatfs/ff.c:1501-1506 | the number of entries a long name takes |
| `Directories.Dir.StoreParts` | qsf/software/cineraria_wavplay/mmcfs/fatfs/ff.c:1525-1538 | the parts of the long name, last one first, and no other entry changed |
| `Directories.Dir.Register` | qsf/software/cineraria_wavplay/mmcfs/fatfs/ff.c:1501-1566 | only unused entries are written, live ones stay, and the table, chain and free count grow correctly; fails only if no run of unused entries is long enough and the table cannot grow, with the reason |
| `Directories.Dir.PickNumber` | qsf/software/cineraria_wavplay/mmcfs/fatfs/ff.c:1489-1499 | the first numbered short name that no object in front of the end of the table has; gives up exactly if all 99 are taken |
| `Directories.Dir.RegisterName` | qsf/software/cineraria_wavplay/mmcfs/fatfs/ff.c:1471-1566 | registration under the short name, or under the first free numbered one if that is lossy; denied if all numbers are taken, otherwise it fails only for want of room in a table that cannot grow |
| `Directories.FindOrRegister` | qsf/software/cineraria_wavplay/mmcfs/fatfs/ff.c:2279-2289 | an existing entry is the first that carries the name; a new one is found by a search if and only if no end of the table lies in front of it, unless the name has 255 units, when no search finds it; the table stays well formed; fails only if the name is new, and its numbers are all taken or there is no room for its entries |
| `Directories.OpenOrCreate` | qsf/software/cineraria_wavplay/mmcfs/fatfs/ff.c:1945-1962 | from the path to the entry: refused exactly for an unacceptable segment; the entry found is the first that carries the segment; the one created spells it; creation fails only if all numbers are taken or no run of unused entries is long enough in a table that cannot grow, with the reason |
| `Directories.SpelledIsMeant` | qsf/software/cineraria_wavplay/mmcfs/fatfs/ff.c:1353-1403 | the object of an entry is the one a segment means if and only if the names are equal up to case and below 255 characters, or the segment is the numbered short name of an object with a longer one |
| `Directories.CreatedSpells` | qsf/software/cineraria_wavplay/mmcfs/fatfs/ff.c:1471-1566 | the entry that creation leaves in a well-formed table is that of the segment, so that the row above applies to it |
| `Saving.CreateNew` | qsf/software/cineraria_wavplay/mmcfs/fatfs/ff.c:2275-2329 | f_open with FA_CREATE_NEW: an existing name is refused, a new one becomes an empty open file whose entry a search for the path finds; fails only with all numbers taken or without room for the entries |
| `Saving.UpdatedTable` | qsf/software/cineraria_wavplay/mmcfs/fatfs/ff.c:2615-2620 | the update of an entry by f_sync changes that entry of the table only, keeps its name and kind, and records cluster and size |
| `Saving.CloseIn` | qsf/software/cineraria_wavplay/mmcfs/fatfs/ff.c:2640-2668 | after f_close the directory stores the file: its entry leads to a chain that holds the content on the drive |
| `Saving.OpenExisting` | qsf/software/cineraria_wavplay/mmcfs/fatfs/ff.c:2317-2361 | f_open without creation: no file exactly if the search finds none or a directory, denied exactly for writing to a read-only file, else a file with the stored content |
| `Saving.SaveAndLoad` | qsf/software/cineraria_wavplay/mmcfs/fatfs/ff.c:2244-2361 | f_open under a new path, f_write, f_close and f_open again: the file holds exactly the bytes written, all of them unless the disk is full; refused only for an unacceptable or existing name, with all numbers taken, or without room in a directory that cannot grow |
| `FreshVolumes.FormatSaveAndLoad` | qsf/software/cineraria_wavplay/mmcfs/fatfs/ff.c:3556-3784 | f_mkfs, f_mount, f_open, f_write, f_close and f_open again, under an acceptable name of at most 254 characters: whenever a layout leaves a cluster, the file holds exactly the bytes written, all of them unless the disk is full; only a FAT32 volume too full for the directory entries refuses |
| `Remounts.MountAgain` | qsf/software/cineraria_wavplay/mmcfs/fatfs/ff.c:2054-2153 | the drive of a volume without pending writes mounts as the same volume with the same free count |
| `Remounts.SaveAndRemount` | qsf/software/cineraria_wavplay/mmcfs/fatfs/ff.c:2244-2361 | f_open, f_write and f_close, then a power failure, a mount and f_open again: the file holds exactly the bytes written, and the free count is right again |
| `FreshVolumes.FormatSaveRemount` | qsf/software/cineraria_wavplay/mmcfs/fatfs/ff.c:3556-3784 | the same from an unformatted drive on |
| `FormattedRoots.OpenRoot` | qsf/software/cineraria_wavplay/mmcfs/fatfs/ff.c:1935-1937 | the root directory of a formatted volume is empty, well formed, and of 512 entries or a cluster chain: the state from which creating objects keeps it well formed |
| `OnDisk.LittleEndian` | qsf/software/cineraria_wavplay/mmcfs/fatfs/ff.h:327-330 | words and double words lie with their lowest byte first |
| `OnDisk.RecordFields` | qsf/software/cineraria_wavplay/mmcfs/fatfs/ff.c:2083-2110 | the fields of a boot record by their offsets |
| `OnDisk.RecordMarks` | qsf/software/cineraria_wavplay/mmcfs/fatfs/ff.c:1982-2002 | a boot record ends in 55 AA and says FAT at 54 or 82 |
| `OnDisk.FirstPartition` | qsf/software/cineraria_wavplay/mmcfs/fatfs/ff.c:2066-2079 | the type of the first partition is at 450, its first sector at 454 |
| `OnDisk.TypeByClusters` | qsf/software/cineraria_wavplay/mmcfs/fatfs/ff.c:2107-2127 | an accepted record with n clusters gives FAT12 if and only if n < 4086, FAT16 if and only if 4086 <= n < 65526, FAT32 otherwise |
| `OnDisk.MountCard` | qsf/software/cineraria_wavplay/mmcfs/fatfs/ff.c:2054-2153 | a card of 62000 clusters is mounted as FAT16, with the layout in numbers |
| `OnDisk.InfoFields` | qsf/software/cineraria_wavplay/mmcfs/fatfs/ff.c:2137-2148 | where mounting finds the hints, and the marks it asks for |
| `OnDisk.FsInfoBytes` | qsf/software/cineraria_wavplay/mmcfs/fatfs/ff.c:767-782 | the FSInfo sector that sync writes |
| `OnDisk.RecordRest` | qsf/software/cineraria_wavplay/mmcfs/fatfs/ff.c:3690-3727 | the fields of the written boot record that mounting does not read |
| `OnDisk.TableBytes` | qsf/software/cineraria_wavplay/mmcfs/fatfs/ff.c:3669-3688 | the written partition table, byte by byte |
| `OnDisk.ReservedEntries` | qsf/software/cineraria_wavplay/mmcfs/fatfs/ff.c:3733-3748 | the written reserved entries, byte by byte |
| `OnDisk.PlanExamples` | qsf/software/cineraria_wavplay/mmcfs/fatfs/ff.c:3600-3660 | the layouts decided for three cards, in numbers |
| `OnDisk.FatSizedExactly` | qsf/software/cineraria_wavplay/mmcfs/fatfs/ff.c:3622-3634 | the FAT is first sized for exactly the clusters the whole volume could hold |
| `OnDisk.LayoutIsTight` | qsf/software/cineraria_wavplay/mmcfs/fatfs/ff.c:3600-3649 | the data area starts at the first multiple of the erase block behind the system areas, and which area takes the gap |
| `OnDisk.ChosenUnits` | qsf/software/cineraria_wavplay/mmcfs/fatfs/ff.c:3562-3613 | the cluster size chosen for every volume size |
| `OnDisk.EntriesInBytes` | qsf/software/cineraria_wavplay/mmcfs/fatfs/ff.c:819-851 | FAT12, FAT16 and FAT32 entries by their bytes |
| `OnDisk.EntryKinds` | qsf/software/cineraria_wavplay/mmcfs/fatfs/ff.c:1366-1393 | deleted and unused entries, parts of long names, labels, directories and read-only files by first byte and attributes |
| `OnDisk.NewEntryBytes` | qsf/software/cineraria_wavplay/mmcfs/fatfs/ff.c:1553-1564 | the short entry of a new name, byte by byte |
| `OnDisk.CaseFlagBits` | qsf/software/cineraria_wavplay/mmcfs/fatfs/ff.c:1560-1560 | the case flags are 8 and 16 |
| `OnDisk.ClearedEntryBytes` | qsf/software/cineraria_wavplay/mmcfs/fatfs/ff.c:2300-2310 | what f_open clears of a new entry, with the creation time |
| `OnDisk.UpdatedEntryBytes` | qsf/software/cineraria_wavplay/mmcfs/fatfs/ff.c:2615-2620 | what f_sync writes into an entry, by offsets |
| `OnDisk.PartBytes` | qsf/software/cineraria_wavplay/mmcfs/fatfs/ff.c:1249-1274 | a part of a long name, by offsets |
| `OnDisk.IllegalCharacters` | qsf/software/cineraria_wavplay/mmcfs/fatfs/ff.c:1658-1659 | eight characters that make a name unacceptable |
| `OnDisk.OtherCharacters` | qsf/software/cineraria_wavplay/mmcfs/fatfs/ff.c:1640-1676 | names of at most 255 other characters are acceptable, unless all dots and spaces |
| `OnDisk.PathCharacters` | qsf/software/cineraria_wavplay/mmcfs/fatfs/ff.c:1639-1644 | separators, ends of segments, and letters |
| `OnDisk.KeptCharacters` | qsf/software/cineraria_wavplay/mmcfs/fatfs/ff.c:1710-1740 | what a short name keeps of a part of a name, character by character |
| `OnDisk.PrintedCharacters` | qsf/software/cineraria_wavplay/mmcfs/fatfs/ff.c:1847-1876 | a short name printed, with 05 for E5 |
| `OnDisk.LeadBytes` | qsf/software/cineraria_wavplay/mmcfs/fatfs/ff.c:1312-1318 | the first bytes of double-byte characters |
| `OnDisk.PlainNumbers` | qsf/software/cineraria_wavplay/mmcfs/fatfs/ff.c:1285-1322 | the first five numbered names for LONGNAME.WAV |
| `OnDisk.MixedNumber` | qsf/software/cineraria_wavplay/mmcfs/fatfs/ff.c:1298-1321 | a number mixed with its long name |
| `OnDisk.NinetyNineNumbers` | qsf/software/cineraria_wavplay/mmcfs/fatfs/ff.c:1489-1499 | the numbers tried are 1 to 99 |
| `ShortNames.CreateName` | qsf/software/cineraria_wavplay/mmcfs/fatfs/ff.c:1623-1748 | the first segment, trimmed; refused exactly when too long, illegal (the characters are listed) or empty; marked lossy exactly if it does not fit 8.3, given a long name exactly if it does not fit in one case; its short name, lossy or not; otherwise it prints back unchanged |
| `ShortNames.MakeShort` | qsf/software/cineraria_wavplay/mmcfs/fatfs/ff.c:1672-1748 | the short name of every name: leading dots and spaces, blanks, illegal characters and the parts too long dropped or replaced; its case flags, and exactly which names are lossy and which need long-name entries |
| `ShortNames.FitsIsKept` | qsf/software/cineraria_wavplay/mmcfs/fatfs/ff.c:1672-1748 | for a name that fits 8.3 the short name is its two parts, padded and in upper case |
| `ShortNames.PlainNameRoundTrip` | qsf/software/cineraria_wavplay/mmcfs/fatfs/ff.c:1847-1876 | a name in 8.3 form is printed back as it was, case included |
| `ShortNames.ShortPrintsUpperCase` | qsf/software/cineraria_wavplay/mmcfs/fatfs/ff.c:1847-1876 | without case flags the short name of a name that fits prints as the name in upper case |
| `ShortNames.SameShortSameName` | qsf/software/cineraria_wavplay/mmcfs/fatfs/ff.c:1353-1403 | comparing short names is comparing names up to case, for all names that fit |
| `ShortNames.PrintName` | qsf/software/cineraria_wavplay/mmcfs/fatfs/ff.c:1847-1876 | the printed form of a short name with its case flags |
| `Directories.StoredNamePrintsBack` | qsf/software/cineraria_wavplay/mmcfs/fatfs/ff.c:1553-1564 | the stored entry prints back as the name |
| `Uart.WriterKeepsInv` | qsf/software/cineraria_wavplay_bsp/drivers/src/altera_avalon_jtag_uart_write.c:100-139 | every step of the writing thread keeps the invariant of both rings |
| `Uart.ReaderKeepsInv` | qsf/software/cineraria_wavplay_bsp/drivers/src/altera_avalon_jtag_uart_read.c:115-195 | every step of the reading thread keeps it |
| `Uart.IsrKeepsInv` | qsf/software/cineraria_wavplay_bsp/drivers/src/altera_avalon_jtag_uart_init.c:117-196 | every step of the interrupt routine keeps it |
| `Uart.ExecutionKeepsInv` | qsf/software/cineraria_wavplay_bsp/drivers/src/altera_avalon_jtag_uart_init.c:105-197 | it holds in every reachable state |
| `Uart.RingsAreLossless` | qsf/software/cineraria_wavplay_bsp/drivers/src/altera_avalon_jtag_uart_write.c:100-127 | under every interleaving: bytes accepted are bytes at the host, in the device and in the ring, in order; and the same for reception |
| `Uart.WriteReturnsAccepted` | qsf/software/cineraria_wavplay_bsp/drivers/src/altera_avalon_jtag_uart_write.c:100-206 | one call of write accepts the leading bytes of its data and returns their number; bytes are left over only after the ring was full during the call, and then only if the call is non-blocking or the host inactive |
| `Uart.ReadReturnsDelivered` | qsf/software/cineraria_wavplay_bsp/drivers/src/altera_avalon_jtag_uart_read.c:115-199 | one call of read hands out exactly the bytes taken from the ring during the call, in order, and returns their number, at most as many as asked for; fewer only after the ring was empty during the call, none in a blocking call only with an empty ring and a host found gone |
| `Uart.BlockedWriterIsServed` | qsf/software/cineraria_wavplay_bsp/drivers/src/altera_avalon_jtag_uart_write.c:183-184 | a writer that waits finds its ring full and its interrupt on |
| `Uart.BlockedReaderIsServed` | qsf/software/cineraria_wavplay_bsp/drivers/src/altera_avalon_jtag_uart_read.c:173-174 | a reader that waits finds its ring empty and its interrupt on |
| `Uart.NothingStranded` | qsf/software/cineraria_wavplay_bsp/drivers/src/altera_avalon_jtag_uart_init.c:156-194 | outside the windows between index update and enable, an interrupt is off only with nothing to send or no room |
| `Uart.DeviceNeverOverrun` | qsf/software/cineraria_wavplay_bsp/drivers/src/altera_avalon_jtag_uart_init.c:171-184 | the transmit FIFO is never written when full |
| `Uart.StepsNeverStuck` | qsf/software/cineraria_wavplay_bsp/drivers/src/altera_avalon_jtag_uart_init.c:105-197 | no assumption built into the steps ever blocks one |
| `Uart.PassServes` | qsf/software/cineraria_wavplay_bsp/drivers/src/altera_avalon_jtag_uart_init.c:117-196 | one pass of the interrupt routine serves what the control register said: reception until the FIFO is empty, or the ring full and the interrupt off; transmission until the space is used up, or the ring empty and the interrupt off |
| `Uart.PassProgresses` | qsf/software/cineraria_wavplay_bsp/drivers/src/altera_avalon_jtag_uart_init.c:117-196 | a pass comes to its end, however fast the host sends |
| `Uart.WriterProgresses` | qsf/software/cineraria_wavplay_bsp/drivers/src/altera_avalon_jtag_uart_write.c:100-188 | every step of write brings it nearer to its return or its next wait, and it waits only for a byte to leave the ring or the host to be found gone |
| `Uart.ReaderProgresses` | qsf/software/cineraria_wavplay_bsp/drivers/src/altera_avalon_jtag_uart_read.c:115-178 | every step of read does, and it waits only for a byte to arrive or the host to be found gone |
| `Uart.HostGoneTakesTime` | qsf/software/cineraria_wavplay_bsp/drivers/src/altera_avalon_jtag_uart_init.c:203-226 | the host is found gone only after as many seconds without activity, counted one by one and from 0 after each sign of it; a timeout of 2^31 - 1 is never reached |
| `Uart.SecondsCount` | qsf/software/cineraria_wavplay_bsp/drivers/src/altera_avalon_jtag_uart_init.c:203-226 | every second without activity counts, up to 2^31 - 3 |
| `Rings.Publish` | qsf/software/cineraria_wavplay_bsp/drivers/src/altera_avalon_jtag_uart_write.c:122-126 | copied bytes are appended by moving the input index |
| `Rings.Consume` | qsf/software/cineraria_wavplay_bsp/drivers/src/altera_avalon_jtag_uart_read.c:136-140 | moving the output index drops exactly the oldest bytes |
| `Rings.FullRing` | qsf/software/cineraria_wavplay_bsp/drivers/inc/altera_avalon_jtag_uart.h:68-70 | a full ring holds 2047 bytes, none more |
| `Alarms.ArmIsExact` | qsf/software/cineraria_wavplay_bsp/HAL/src/alt_alarm_start.c:80-96 | the wrapped time and the rollover bit stand for the exact deadline if and only if the interval is below 2^32 - 1 or the counter is at its maximum |
| `Alarms.TickIsExact` | qsf/software/cineraria_wavplay_bsp/HAL/src/alt_tick.c:96-139 | at a tick the alarm fires exactly if its deadline has come, and then stands for the deadline one period later |
| `Alarms.StaysExact` | qsf/software/cineraria_wavplay_bsp/HAL/src/alt_tick.c:96-141 | this holds after any number of ticks and counter wraps |
| `Alarms.FiresExactly` | qsf/software/cineraria_wavplay_bsp/HAL/src/alt_tick.c:96-141 | in every run an alarm fires first at its deadline and then after each returned period, never early, late or missed, if and only if its interval is below 2^32 - 1 or the counter is at its maximum when it starts |
| `Alarms.LongestIntervalFiresAtOnce` | qsf/software/cineraria_wavplay_bsp/HAL/src/alt_alarm_start.c:82-96 | an interval of 2^32 - 1 fires on the next tick, unless the counter is at its maximum |
| `Alarms.ArmIsOverdue` | qsf/software/cineraria_wavplay_bsp/HAL/src/alt_alarm_start.c:80-96 | the longest interval leaves the alarm overdue unless the counter is at its maximum, and no other interval does |
| `Alarms.OverdueTick` | qsf/software/cineraria_wavplay_bsp/HAL/src/alt_tick.c:96-139 | an overdue alarm fires on the next tick; its next period is one tick short, or a single tick again, or a whole turn of the counter |
| `Alarms.Clock.Start` | qsf/software/cineraria_wavplay_bsp/HAL/src/alt_alarm_start.c:64-112 | the alarm is armed and listed with its exact deadline (but for the longest interval), or nothing changes and the error says why |
| `Alarms.Alarm.Carry` | qsf/software/cineraria_wavplay_bsp/HAL/src/alt_tick.c:109-139 | one alarm carried over one tick |
| `Alarms.Clock.Tick` | qsf/software/cineraria_wavplay_bsp/HAL/src/alt_tick.c:87-141 | the callbacks called are exactly those of the alarms whose deadline is now and of the overdue ones, each once and in the order of the list; the list keeps the others and those that ask for more, in order, each with its exact next deadline |
| `Alarms.SurvivorsAre` | qsf/software/cineraria_wavplay_bsp/HAL/src/alt_tick.c:96-141 | the alarms kept and called are exactly those that go on and that fire |
| `Alarms.ChosenAre` | qsf/software/cineraria_wavplay_bsp/HAL/src/alt_tick.c:87-141 | the alarms chosen from a list are exactly those named, none of them twice |
| `Alarms.ChosenInOrder` | qsf/software/cineraria_wavplay_bsp/HAL/src/alt_tick.c:87-141 | and they are in the order of the list |
| `Flash.Epcq.EraseBlock` | qsf/software/cineraria_wavplay_bsp/drivers/src/altera_epcq_controller.c:181-233 | the sector is erased, or nothing changes; each error with its exact cause |
| `Flash.Epcq.WriteBlock` | qsf/software/cineraria_wavplay_bsp/drivers/src/altera_epcq_controller.c:256-360 | exactly the data is programmed where the data offset says, up to the first protected sector; each error with its exact cause |
| `Flash.Epcq.StaysInSector` | qsf/software/cineraria_wavplay_bsp/drivers/src/altera_epcq_controller.c:277-291 | a non-empty write that passes the check stays in the sector it names if and only if it starts in that sector or right behind it |
| `Flash.Epcq.OtherSectorsAccepted` | qsf/software/cineraria_wavplay_bsp/drivers/src/altera_epcq_controller.c:277-291 | a write in front of the named sector and one two sectors behind it that pass the check |
| `Flash.PaddedWord` | qsf/software/cineraria_wavplay_bsp/drivers/src/altera_epcq_controller.c:294-337 | a word padded with 0xFF programs only the bytes that are not padding |
| `Flash.SectorWritten` | qsf/software/cineraria_wavplay_bsp/drivers/src/altera_epcq_controller.c:418-464 | an erased and programmed sector carries its share of the data and 0xFF elsewhere |
| `Flash.Epcq.Write` | qsf/software/cineraria_wavplay_bsp/drivers/src/altera_epcq_controller.c:382-467 | success: the data in the memory is written, 0xFF in the rest of the touched sectors, no change elsewhere; an error comes from the first protected sector |
| `Flash.Epcq.AllIsWritten` | qsf/software/cineraria_wavplay_bsp/drivers/src/altera_epcq_controller.c:724-738 | all of the data is written if and only if it lies in the memory |
| `Flash.Epcq.LastByteIsRefused` | qsf/software/cineraria_wavplay_bsp/drivers/src/altera_epcq_controller.c:728-736 | of the writes inside the memory exactly those that reach its end are refused |
| `Flash.Epcq.EndIsRefused` | qsf/software/cineraria_wavplay_bsp/drivers/src/altera_epcq_controller.c:724-738 | an end at or behind the end of the memory is refused unless its address wraps past 2^32; the exact condition for every offset and length |
| `Flash.Epcq.NegativeOffsetAccepted` | qsf/software/cineraria_wavplay_bsp/drivers/src/altera_epcq_controller.c:724-738 | an offset in front of the memory passes the check and nothing is written |

## Left out

- Disk errors, media removal and the `validate` checks: every access to a sector of the drive succeeds, except behind its end while formatting and mounting.
- Branches that the proved invariants rule out (the checks for an invalid cluster while reading, for instance) are not written down again.
- f_truncate, which frees clusters without dropping the file's buffer, and f_forward, f_printf and the other string functions.
- f_rename, f_unlink, f_mkdir, f_chmod, f_utime, dir_remove, dir_read, follow_path: built from the modelled parts.
- Two file objects on one file, and the configurations _FS_TINY, _FS_SHARE, _FS_REENTRANT, _FS_RPATH, _MULTI_PARTITION, _USE_ERASE and sector sizes other than 512.
- Files.File.Open: the lookup of the directory entry is not part of it; the chain and a size within it are assumed of the entry, as the code assumes them.
- Files.File.Write: after an internal error, which a forest of chains excludes, only the validity of the volume and the reserved entry are stated.
- Mounts.ChkMounted: drive numbers, the mounted check and write protection are left out; the drive is ready.
- Formatting.Format: one FAT copy (N_FATS is 1), 512-byte sectors; the erase block is a power of two, as GET_BLOCK_SIZE promises; the 32-bit overflow of the FAT byte count is excluded by `Countable`.
- Directories.OpenOrCreate: paths of one segment, so no way through subdirectories.
- Saving.CreateNew: f_open with FA_CREATE_NEW only; truncation of an existing file (FA_CREATE_ALWAYS), which frees its chain, is left out.
- Saving.OpenExisting: the chain and a size within it are assumed of the entry that is found, as the code assumes them.
- Saving.SaveAndLoad: after a reserved FAT entry, which a forest of chains excludes, only that is stated.
- FreshVolumes.FormatSaveAndLoad: the same limits as Formatting.Format; a FAT32 volume whose cluster numbers do not fit 28 bits is formatted, but nothing is said of saving on it.
- Sessions.Run: requests are reads, writes and seeks; f_sync and directory operations beside open files are in `Beside`.
- Beside.WriteBeside: after a reserved FAT entry, which a forest of chains excludes, only the validity of the volume is stated.
- Beside.SeekBeside: the same.
- NumberedNames.GenNumName: the double-byte ranges are those of code page 932, the one configured.
- Directories.Dir.Next: the entry number is a 16-bit number; tables of more than 65536 entries are seen up to there, as in the code.
- ShortNames.CreateName: ASCII paths only; the code pages and their conversion tables are not part of this model.
- ShortNames.MakeShort: ASCII names only, for the same reason.
- DirTables.OthersFoundAsBefore: zero-terminated tables, which formatting and every registration leave.
- Formatting.FormatAndMount: the same limits as Formatting.Format.
- Volumes whose FAT copies differ: the code never reads the second FAT, but the model's volumes have equal copies, as formatting leaves them and every write keeps them.
- Alarms.Clock.Start: an alarm that is already listed is not started again; the code would link it twice.
- Dot entries of directories, volume labels as objects, and time stamps other than the one f_sync writes.
- Uart.RingsAreLossless: the driver without an RTOS, so no event flags and semaphores; the option that discards the transmit ring when no host is attached is off. RVALID = 0 is taken to imply RAVAIL = 0. When interrupts are pending is left to the device.
- Uart.WriterProgresses: no fairness is assumed, so nothing is said about how long a wait lasts; negative counts are left out.
- Remounts.SaveAndRemount: an FSInfo sector of its own is assumed (`Mounts.InBooks`); `Mounts.SyncAndMount` is the exact condition.
- FreshVolumes.FormatSaveRemount: the same limits as FreshVolumes.FormatSaveAndLoad.
- Alarms.Clock.Tick: the list is a sequence with insertion at the front; its links are not modelled, and callbacks do not edit it.
- Flash.Epcq.Write: null pointers and negative lengths are left out (the data is a sequence); sector protection is a fixed set; a device of at most 65536 sectors and below 2 GB.
- Flash.Epcq.WriteBlock: the data is a sequence of fewer than 2^31 bytes; a null pointer and a negative length are left out.
- SD/MMC command traffic, device registers, cache flushes, start-up code, logging, the HAL descriptor table and the time-of-day functions.
