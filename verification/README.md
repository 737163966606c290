# A FAT driver, its recovery tool and two thread programs

The repository holds a Linux FAT file system driver (`kernel_camp/fat_log_module_practice`), a
program that brings back deleted files (`kernel_camp/fat_recovery_lecture`), and thread programs
that share counters and files (`ITRC`). This project models them in Dafny and proves what they
keep, what they give back and where they do not.

**The volume.** A disk is one array of bytes; `Layout` says where the copies of the table, the root
directory and the clusters lie, and `FatMount` computes it from the boot sector as mounting does,
32-bit wrap-arounds included. `EntryCodec` gives table entries of 12, 16 and 32 bits as bytes. Class
`Volume` has the driver's own state — the hint for next fit, the free counter, buffer references —
beside the table as it decodes (`fat`) and the set of table blocks whose copies differ (`stale`).
Its methods are the functions of fatent.c with their loops over blocks, buffers and copies.

**Files.** Class `Inode` has the cached runs, the chain and the sizes of an open file; its methods are
those of cache.c, file.c, misc.c and inode.c that concern clusters. `ChainWalk` is the plain walk
that the cache must agree with, on any table. `Ownership` is a small state machine: who owns which
clusters. Class `FileSystem` ties the live objects to it: its `Valid()` says that no two files share
a cluster, that none is lost, that every cache is right, that the copies of the table agree and that no
buffer is left referenced. Every operation keeps it.

**Directories.** `DirSlots` has the 32-byte slots, the grammar of long names and their checksum;
`DirRecords` the records a directory holds; class `Directory` the functions of dir.c with cursor,
buffers and loops. `ShortNames`, `NameText` and `MsdosNames` make and read names, `NameBytes` and
`LegalNames` say which characters they store; `VfatDirectory` creates, finds and unlinks;
`VfatLookup` is the showing and the comparison of names on a VFAT mount; `CreatedNames` says by the
characters of a name when one slot is enough for it and when it is found after its creation. `EntryInode` fills an inode
from its entry and writes it back. `VolumeDirectory` puts the slots into the blocks of the
directory's chain, with clusters from the allocator, and deletes a file with its clusters.

**The rest.** `Recovery` is the recovery program, and a deletion on the volume to go before it.
`FatTime` is the conversion of times. `ConditionGate` and `SemaphoreGate` are the thread programs as
state machines with one move for each step of a thread, for any number of threads and any schedule.

The on-disk format is that of Microsoft's "FAT: General Overview of On-Disk Format", version 1.03.
Condition variables follow `pthread_cond_wait` and `pthread_cond_signal` of IEEE Std 1003.1.
Constants such as `FAT_START_ENT` come from `linux/msdos_fs.h`, which is not part of this model.

`dafny verify dfyconfig.toml` checks the whole project.

## Findings

Properties one would expect of this code and that it does not have, each with the exact condition
under which it does:

- A boot sector without any table can be mounted, and so can one whose sector count ends before its
  first cluster, because the count wraps; exactly when is said in `FatMount.NoTableMounted` and
  `FatMount.FewSectorsMounted`, with an input in `FatMount.FewSectors`. The layout is in order
  exactly if there is a table and the count gives a cluster (`FatMount.LayoutInOrder`), and its
  clusters are on the volume exactly if the first one is (`FatMount.ClustersOnVolume`).
- A volume may have fewer clusters than its sectors and its table hold: exactly if the number of entries
  for clusters reaches 2^32 and what the wrap leaves of it is below the number of clusters the sectors
  give (`FatMount.ClustersExactly`); an input is in `FatMount.LostClusters`.
- A name does not always come back from its text: exactly if `uni_xlate` is set or the code page has
  every unit of it (`NameText.TextRoundTrip`). Nor does a text from its name: exactly if each of its
  escapes is of a unit without a character and, where case counts, has small digits
  (`CreatedNames.LongTextIsName`).
- A name just created is not always found: exactly if its escapes are such, and it is not an 8.3 name
  in capitals while names are shown in lower case and compared strictly
  (`CreatedNames.CreateThenFind`). `FOO` is an input for the one (`CreatedNames.LoweredName`), `:0041`
  for the other (`CreatedNames.EscapedName`).
- A time outside the local years 1980 to 2107 comes back as another one, all others rounded down to
  10 ms (`FatTime.UnixFatUnix`).
- Recovery does not always find the file just deleted: the long-name slots in the same block are shifted
  too, and one may match first, as for a file `a b` sought as `A`; then a cluster number made of
  characters gets the EOF mark (`Recovery.LongNameMissed`). The file is found exactly under
  `FindsFile` (`Recovery.FoundExactly`).
- Recovery does not always restore the name: exactly if its last two bytes are equal
  (`Recovery.RecoveryExact`).
- Recovery does not always leave the copies of the table equal: exactly if there is only one
  (`Recovery.CopiesDiffer`).
- The search for a free hexadecimal tail ends exactly if one of 65536 names is free
  (`ShortNames.SearchEnds`); well-formed directories are small enough (`VfatDirectory.FewNames`).

## Model

| member | source | states |
|---|---|---|
| FatMount.MountedValid | kernel_camp/fat_log_module_practice/inode.c:1555-1686 | the layout computed from any accepted boot sector, with the 32- and 64-bit wrap-arounds, keeps every table entry inside the table and all areas in order exactly if the volume has a table, at least one cluster and no cluster number the table reserves |
| FatMount.LayoutInOrder | kernel_camp/fat_log_module_practice/inode.c:1676-1686 | with bounds on the count that leave out the reserved numbers: exactly if there is a table and the sector count, wrapped as it is, gives a cluster |
| FatMount.ClustersOnVolume | kernel_camp/fat_log_module_practice/inode.c:1653-1686 | all clusters lie before the last counted sector if and only if the first one does |
| FatMount.ClustersOfVolume | kernel_camp/fat_log_module_practice/inode.c:1653-1686 | the clusters of an accepted volume are just those whose sectors are counted and whose entry lies in the table, as long as the number of entries does not wrap below the count |
| FatMount.ClustersExactly | kernel_camp/fat_log_module_practice/inode.c:1653-1686 | they are so exactly as long as it does not |
| FatMount.LostClusters | kernel_camp/fat_log_module_practice/inode.c:1676-1686 | a boot sector, accepted, whose number of entries wraps and leaves out most of its clusters |
| FatMount.VolumeByFields | kernel_camp/fat_log_module_practice/inode.c:1586-1686 | by the fields alone: the 16-bit count of sectors and length of a table are taken if they are given, the 32-bit ones if not; a table of 32 bits exactly if its length is the 32-bit one, of 12 exactly if the sectors behind the root directory hold no more clusters than the bound; the boot sector is accepted exactly if the rest is in order and the first number above the bound is no cluster; where tables and clusters begin, and which clusters there are |
| FatMount.FloppyMounted | kernel_camp/fat_log_module_practice/inode.c:1586-1686 | a floppy of 1.44 MB: 12 bits, 2847 clusters |
| FatMount.SmallDiskMounted | kernel_camp/fat_log_module_practice/inode.c:1586-1686 | a disk with the 32-bit count of sectors and a table of 16 bits |
| FatMount.LargeDiskMounted | kernel_camp/fat_log_module_practice/inode.c:1586-1686 | and one with a table of 32 bits |
| FatMount.TableEntries | kernel_camp/fat_log_module_practice/inode.c:1317-1328 | the number of entries computed is just the number that lie inside the table, for 12, 16 and 32 bits |
| FatMount.TableKind | kernel_camp/fat_log_module_practice/inode.c:1665-1673 | a table without a 32-bit length has 12 bits exactly if the sectors from the first cluster on cannot hold more clusters than the bound |
| FatMount.RootArea | kernel_camp/fat_log_module_practice/inode.c:1642-1655 | the root directory is whole blocks, just enough for its entries |
| FatMount.MountExactly | kernel_camp/fat_log_module_practice/inode.c:1380-1424 | which boot sectors are accepted, by their fields: medium, reserved sectors and tables given, 512 to 4096 bytes a sector and no less than the device has, clusters of 1 to 128 sectors, a root directory of whole sectors, and no more clusters than the kind of table may have |
| FatMount.WholeSectors | kernel_camp/fat_log_module_practice/inode.c:1555-1563 | blocks are whole sectors of the device; a boot sector is refused for its sector size exactly if they would not be |
| FatMount.NoTableMounted | kernel_camp/fat_log_module_practice/inode.c:1676-1686 | a boot sector without a table is accepted whenever its sector count is small enough, and then no cluster has an entry |
| FatMount.FewSectorsMounted | kernel_camp/fat_log_module_practice/inode.c:1660-1678 | a sector count that ends before the first cluster wraps, so that only the table bounds the number of clusters: the boot sector is accepted exactly if the table has few enough entries, and then every cluster lies past the last counted sector |
| FatMount.FewSectors | kernel_camp/fat_log_module_practice/inode.c:1660-1678 | such a boot sector, accepted |
| FatVolume.HintWraps | kernel_camp/fat_log_module_practice/inode.c:1690-1693 | the next-fit hint of the FSINFO sector, whatever it is, counts on from cluster zero at the end of the volume; what is no cluster becomes the first one |
| FatVolume.Volume.Mount | kernel_camp/fat_log_module_practice/inode.c:1586-1696 | a mounted volume: the table decodes, the next-fit hint is the number given, wrapped like that, a free count that cannot be right is not known, and the counter is trusted as asked |
| EntryCodec.PutGet | kernel_camp/fat_log_module_practice/fatent.c:120-193 | an entry put and read back is the value stored exactly if that is below the bad-cluster mark or EOF; anything between comes back as EOF |
| EntryCodec.ReadsAs | kernel_camp/fat_log_module_practice/fatent.c:120-154 | which numbers stand for a cluster and which for the end: from 0xFF7, 0xFFF7 or 0x0FFFFFF7 on |
| EntryCodec.EntryBits | kernel_camp/fat_log_module_practice/fatent.c:120-154 | a table is a stream of bits, lowest first: bit i of the number in entry e is bit 12 e + i, 16 e + i or 32 e + i of the table |
| Layout.PutReadsBack | kernel_camp/fat_log_module_practice/fatent.c:120-193 | so whatever the driver puts into an entry of a volume in order, EOF, a free mark or a cluster number, it reads back |
| EntryCodec.PutOther | kernel_camp/fat_log_module_practice/fatent.c:120-193 | writing one entry changes the decoded value of no other, though 12-bit neighbours share a byte |
| EntryCodec.PutFrame | kernel_camp/fat_log_module_practice/fatent.c:156-193 | no byte outside the entry changes |
| EntryCodec.EofBits | kernel_camp/fat_log_module_practice/fatent.c:156-193 | the end of a chain is marked with all bits of the entry set; the neighbour's half byte of a 12-bit table and the reserved bits of a 32-bit one are kept |
| Layout.StoredDecodes | kernel_camp/fat_log_module_practice/fatent.c:156-193 | on the volume the decoded table changes at the one entry only |
| Layout.MirrorDone | kernel_camp/fat_log_module_practice/fatent.c:378-407 | when every copy has been written the listed blocks are equal in all copies |
| Layout.ClusterBlockInjective | kernel_camp/fat_log_module_practice/fat.h:226-230 | different (cluster, sector) pairs are different blocks, all past tables and root directory |
| FatVolume.Volume.EntBread | kernel_camp/fat_log_module_practice/fatent.c:70-118 | the pointers lead to the bytes of the entry, one or two buffers are referenced, each once |
| FatVolume.Volume.EntUpdatePtr | kernel_camp/fat_log_module_practice/fatent.c:321-349 | buffers already held are reused exactly if they are those of the entry, and the pointers then lead to it, so that reading gives what fresh buffers would; otherwise nothing changes, and the references balance |
| FatVolume.Volume.EntGet | kernel_camp/fat_log_module_practice/fatent.c:120-154 | reading through the pointers gives the decoded entry |
| FatVolume.Volume.EntPut | kernel_camp/fat_log_module_practice/fatent.c:156-193 | writing through them changes the decoded table, and the bytes, at that entry; its blocks now differ from the copies |
| FatVolume.Volume.FatEntNext | kernel_camp/fat_log_module_practice/fatent.c:425-433 | the pointers step to the next entry exactly if there is one and the buffers hold all of it, except for a 12-bit entry that would be the last two bytes of its block; else they say that they cannot |
| FatVolume.Volume.Fat12EntNext | kernel_camp/fat_log_module_practice/fatent.c:195-226 | for 12-bit entries that may straddle two blocks, with that exception |
| FatVolume.Volume.EntReadBlock | kernel_camp/fat_log_module_practice/fatent.c:435-445 | old buffers are dropped and those of the entry referenced |
| FatVolume.Volume.EntRead | kernel_camp/fat_log_module_practice/fatent.c:351-375 | -EIO exactly for numbers outside the table, the decoded value otherwise, references balanced |
| FatVolume.Volume.MirrorBhs | kernel_camp/fat_log_module_practice/fatent.c:378-407 | the given blocks become equal in all copies, the first table keeps every byte, and no data changes |
| FatVolume.Volume.EntWrite | kernel_camp/fat_log_module_practice/fatent.c:409-423 | one entry written, the rest of the first table as it was, all copies of its blocks equal again |
| FatVolume.Volume.CollectBhs | kernel_camp/fat_log_module_practice/fatent.c:447-463 | each buffer is collected once and referenced once |
| FatChain.NthCovers | kernel_camp/fat_log_module_practice/fatent.c:488-527 | one round of the block-wise scan meets every entry exactly once |
| FatChain.ScanIsAllFree | kernel_camp/fat_log_module_practice/fatent.c:488-527 | what a whole round takes are all free entries, each once |
| FatChain.ScanCount | kernel_camp/fat_log_module_practice/fatent.c:488-532 | so a whole round takes as many as are free, and an allocation of n fails exactly with fewer than n |
| FatChain.ScanOutcome | kernel_camp/fat_log_module_practice/fatent.c:488-532 | a stopped scan has the first n free entries, or all of them when there are fewer |
| FatChain.ScanOrder | kernel_camp/fat_log_module_practice/fatent.c:487-532 | the scan goes upward from the entry it starts at and on from the first cluster: those it takes come, in this order, before all other free ones |
| FatVolume.Volume.ScanLoop | kernel_camp/fat_log_module_practice/fatent.c:483-527 | the loop over blocks, wrapping at the end of the table, is that scan |
| FatVolume.Volume.AllocClusters | kernel_camp/fat_log_module_practice/fatent.c:465-551 | next fit: the first n free entries from the one after the last allocated become a chain that ends in EOF, other entries and all copies agree; it fails exactly if the counter rules it out or fewer than n are free, and then the table is as before; hint and counter afterwards are fixed for each outcome; it fails exactly if fewer are free or a trusted counter says so, and then hint and counter are as the scan left them |
| FatVolume.Volume.TakingIs | kernel_camp/fat_log_module_practice/fatent.c:478-532 | which clusters that takes and what it leaves in hint and counter, in terms of the scan |
| FatVolume.DecreasedByOne | kernel_camp/fat_log_module_practice/fatent.c:508-510 | the counter goes down by one for each cluster taken, and is not known any more below zero |
| FatChain.RollbackRestores | kernel_camp/fat_log_module_practice/fatent.c:534-548 | freeing a chain just linked gives the table back |
| FatVolume.Volume.Rollback | kernel_camp/fat_log_module_practice/fatent.c:529-548 | the same on the volume and its copies |
| FatChain.LinkedCount | kernel_camp/fat_log_module_practice/fatent.c:498-514 | linking n free entries lowers the number of free entries by n |
| FatChain.FreeWalkOnlyFrees | kernel_camp/fat_log_module_practice/fatent.c:566-616 | on any table, cycles and bad links included, freeing changes entries only to free |
| FatChain.FreeWalkChain | kernel_camp/fat_log_module_practice/fatent.c:566-616 | on a well-formed chain it frees exactly that chain |
| FatChain.FreeWalkMeans | kernel_camp/fat_log_module_practice/fatent.c:566-616 | on any table it frees just the entries it comes through, and stops with an error exactly where it comes to a number out of range, a free entry or one it has freed, in place of the end |
| FatVolume.Volume.FreeLoop | kernel_camp/fat_log_module_practice/fatent.c:566-616 | the loop ends on any table; the collection of buffers never exceeds its bound |
| FatVolume.Volume.FreeClusters | kernel_camp/fat_log_module_practice/fatent.c:553-633 | what it frees, when it fails, that copies agree on success and that after a failure only blocks of entries it freed can differ |
| FatVolume.Volume.CountFreeClusters | kernel_camp/fat_log_module_practice/fatent.c:652-695 | the counter is the number of free entries, or the trusted value already there |
| ChainWalk.ToFrontKeeps | kernel_camp/fat_log_module_practice/cache.c:74-79 | the list stays the same but for its order, and no two runs of it start at the same cluster |
| FatInode.Inode.CacheLookup | kernel_camp/fat_log_module_practice/cache.c:81-116 | whatever the order of the list, the furthest cached position not beyond the request, and its true cluster; the run found comes to the front and the others keep their order |
| ChainWalk.FurthestHit | kernel_camp/fat_log_module_practice/cache.c:89-107 | why: the run that starts last, or one that covers the request, reaches furthest |
| FatInode.Inode.CacheMerge | kernel_camp/fat_log_module_practice/cache.c:118-133 | a run with the same start has the same place on disk (the `BUG_ON` cannot fire) and grows to cover the new one; the run known is the longer of both afterwards |
| FatInode.Inode.CacheAdd | kernel_camp/fat_log_module_practice/cache.c:135-181 | the cache stays right; a run found before an invalidation is not taken, one with a known start grows the known run and brings it to the front, any other comes in front if there is memory, and a full list gives up its least recently used |
| ChainWalk.PushedMeans | kernel_camp/fat_log_module_practice/cache.c:135-181 | the list of at most eight runs afterwards: a known run in front, the others in their order; a new one in front, for which a list of eight loses its last |
| FatInode.Inode.CacheInval | kernel_camp/fat_log_module_practice/cache.c:187-210 | the cache is empty and has a new validity id, never the special one |
| ChainWalk.WalkChain | kernel_camp/fat_log_module_practice/cache.c:226-285 | on a well-formed chain the plain walk finds the n-th cluster, or EOF at the last |
| ChainWalk.WalkMeans | kernel_camp/fat_log_module_practice/cache.c:226-285 | on any table it answers the cluster with that number, or the last one before it if the file ends there, or the first that leads nowhere or has a number past the limit |
| FatInode.Inode.GetCluster | kernel_camp/fat_log_module_practice/cache.c:226-285 | through the cache the result is that of the plain walk from the first cluster, on any table: value, index, EOF, error, limit; unless it was broken off, and if there is memory, the first cached run then covers where it ended |
| FatInode.Inode.LimitSuffices | kernel_camp/fat_log_module_practice/cache.c:228-260 | the limit that ends a walk on a cycle is the number of whole clusters below four gigabytes, and cuts off no chain for a size a directory entry can hold |
| ChainWalk.CacheKept | kernel_camp/fat_log_module_practice/cache.c:81-133 | allocating and appending keep every cache of every file right |
| ChainWalk.CacheAgree | kernel_camp/fat_log_module_practice/file.c:224-291 | cached runs before the cut stay right when a file is cut |
| ChainWalk.CacheInside | kernel_camp/fat_log_module_practice/cache.c:212-224 | cached runs end with the chain |
| FatInode.Inode.Bmap | kernel_camp/fat_log_module_practice/cache.c:306-353 | block number, zero or error, by size, chain and kind of root directory, and the number of blocks mapped: one in a fixed root directory, none where nothing is mapped |
| FatInode.Inode.ChainAdd | kernel_camp/fat_log_module_practice/misc.c:103-166 | the new chain hangs behind the file, block count and free count agree, cached runs stay right |
| FatChain.CutFromChain | kernel_camp/fat_log_module_practice/file.c:224-291 | head still a chain, tail free, every other entry as before, and the count of free entries |
| FatInode.Inode.Free | kernel_camp/fat_log_module_practice/file.c:224-291 | everything after the n-th cluster is freed and nothing else, runs re-cached by its own walk included; the error branches are dead on a well-formed chain |
| FatInode.Inode.TruncateBlocks | kernel_camp/fat_log_module_practice/file.c:293-310 | sizes, chain, block count and free counter after a truncate |
| FatInode.Inode.ClustersHold | kernel_camp/fat_log_module_practice/file.c:304-309 | the clusters kept are the least number that holds the size |
| FatInode.Inode.CalcDirSize | kernel_camp/fat_log_module_practice/inode.c:444-459 | the size of a directory is that of its chain |
| FatInode.Inode.AddCluster | kernel_camp/fat_log_module_practice/inode.c:104-117 | one more cluster, the one next fit gives, at the end of the file; all or nothing, hint and counter moved as by the allocator |
| FatInode.Inode.AddClusters | kernel_camp/fat_log_module_practice/dir.c:1365-1383 | the same for the clusters a directory grows by |
| FatInode.Inode.GrowDirectory | kernel_camp/fat_log_module_practice/dir.c:1365-1391 | with these clusters both sizes grow, and stay the size of the chain; it fails exactly if too few clusters are free, and then nothing has changed |
| FatInode.Inode.GetBlock | kernel_camp/fat_log_module_practice/inode.c:119-169 | a mapped block gives its place; with `create` the next block extends the file, by the cluster next fit gives when it begins one, and the hint moves to that cluster; the blocks mapped lie behind one another; it fails exactly if another block is asked for, or no cluster is free, and then chain and table are as before; chain length, block count and sizes agree after every call |
| FatInode.Inode.InSizeIs | kernel_camp/fat_log_module_practice/cache.c:326-339 | the blocks a lookup maps are those that begin inside the file size and, for an allocation, those that begin inside the allocated size |
| FatInode.Inode.MappedEnd | kernel_camp/fat_log_module_practice/cache.c:326-339 | how far blocks may be mapped from such a block: to the end of the file if it begins inside that, else to the end of what is allocated |
| FatInode.Inode.BlocksCounted | kernel_camp/fat_log_module_practice/misc.c:157-163 | `i_blocks`, in units of 512 bytes, is the size of the chain |
| FatInode.Inode.BlocksInOrder | kernel_camp/fat_log_module_practice/cache.c:341-351 | blocks of a file in one cluster lie behind one another |
| FatInode.Inode.MapGrown | kernel_camp/fat_log_module_practice/inode.c:153-166 | both `BUG_ON`s behind an allocation cannot fire |
| Ownership.AllocKeeps | kernel_camp/fat_log_module_practice/fatent.c:465-551 | an allocation keeps: chains acyclic, in range, ended by EOF, pairwise disjoint, and the entries in use are exactly those of chains, of allocated clusters not yet attached, and foreign ones |
| Ownership.AttachKeeps | kernel_camp/fat_log_module_practice/misc.c:103-166 | so does hanging an allocated chain behind a file |
| Ownership.TruncateKeeps | kernel_camp/fat_log_module_practice/file.c:224-291 | so does a truncate |
| Ownership.FreeLooseKeeps | kernel_camp/fat_log_module_practice/dir.c:1379-1383 | so does giving allocated clusters back |
| Ownership.RunKeeps | kernel_camp/fat_log_module_practice/fatent.c:465-633 | and so does every run of these, on any number of files |
| Ownership.BlocksNeverShared | kernel_camp/fat_log_module_practice/cache.c:306-353 | in any state of any run two different (file, sector) pairs never lie on the same block |
| FatFileSystem.FileSystem.constructor | kernel_camp/fat_log_module_practice/inode.c:1684-1700 | right after mounting every entry in use is foreign |
| FatFileSystem.FileSystem.WriteBlock | kernel_camp/fat_log_module_practice/inode.c:119-169 | on live objects: writing a block takes the cluster the inode's own write takes, keeps no cross-link, no leak, true caches of all inodes, equal copies, no buffer left referenced, the size of the file and all data, and an exact counter stays exact |
| FatFileSystem.FileSystem.Extend | kernel_camp/fat_log_module_practice/dir.c:1365-1391 | the same for a directory that grows, by the clusters next fit gives, with its sizes; it fails exactly if too few clusters are free |
| FatFileSystem.FileSystem.MapBlock | kernel_camp/fat_log_module_practice/cache.c:306-353 | the same for a lookup, whose answer does not depend on what the cache remembers |
| FatFileSystem.FileSystem.Truncate | kernel_camp/fat_log_module_practice/file.c:293-310 | the same for a truncate, which cuts the one chain in the table, counts its clusters as free and writes no data |
| FatFileSystem.FileSystem.SetSize | kernel_camp/fat_log_module_practice/inode.c:227-241 | the size of a file may become any its clusters hold, as after a write, with nothing else changed and all of this kept |
| FatFileSystem.FileSystem.Shrink | kernel_camp/fat_log_module_practice/file.c:444-453 | a file set to a smaller size keeps just the clusters for it, the others become free, and its sizes agree again |
| FatFileSystem.FileSystem.Evict | kernel_camp/fat_log_module_practice/inode.c:565-576 | the same for an inode evicted after its last name: exactly its clusters become free |
| FatFileSystem.FileSystem.Open | kernel_camp/fat_log_module_practice/inode.c:461-520 | clusters of a file found on the volume are no longer foreign |
| FatFileSystem.FileSystem.NeverShared | kernel_camp/fat_log_module_practice/cache.c:306-353 | two (file, sector) pairs of live inodes never map to one block |
| FatDirectory.Directory.GetEntry | kernel_camp/fat_log_module_practice/dir.c:84-133 | every slot in order, whether from the buffer at hand or a new one |
| FatDirectory.Directory.ParseLong | kernel_camp/fat_log_module_practice/dir.c:283-343 | for any slots: the parse is the grammar of long names, restart at a new name, orphan pieces and the checksum included |
| DirSlots.ParseSound | kernel_camp/fat_log_module_practice/dir.c:283-343 | a parsed long name is a whole record: pieces numbered down to 1, one checksum, that of the live short entry behind |
| DirSlots.ParseRecord | kernel_camp/fat_log_module_practice/dir.c:283-343 | every whole record is parsed |
| DirSlots.TextUnits | kernel_camp/fat_log_module_practice/dir.c:283-343 | where each unit of a long name stands, in any slots, one that leads in the middle included |
| DirSlots.StrnMeans | kernel_camp/fat_log_module_practice/dir.c:955-963 | two 8.3 names are the same exactly if their bytes are up to the first zero |
| DirSlots.IdParts | kernel_camp/fat_log_module_practice/dir.c:298-303 | the id of a piece is its number, a mark for the last one of a name, and a bit that makes it invalid |
| DirSlots.ChecksumSeesOneByte | kernel_camp/fat_log_module_practice/fat.h:215-224 | the checksum of two names that differ in one byte differs |
| DirSlots.ChecksumFolds | kernel_camp/fat_log_module_practice/fat.h:215-224 | the checksum takes a step for each of the eleven bytes, from zero on |
| DirSlots.SumStepRotates | kernel_camp/fat_log_module_practice/fat.h:215-224 | each step of the checksum is a rotation of eight bits to the right and an addition |
| FatDirectory.Directory.SearchLong | kernel_camp/fat_log_module_practice/dir.c:466-542 | for any way to show and compare names, the search loop with its cursor is the search over the slots |
| DirRecords.SearchSound | kernel_camp/fat_log_module_practice/dir.c:466-542 | in any directory a hit bears the name and no earlier live entry does; a miss means none does |
| DirRecords.SearchFinds | kernel_camp/fat_log_module_practice/dir.c:466-542 | in a tidy directory the first record that bears a name is found, with its slots, if there is one |
| FatDirectory.Directory.GetShortEntry | kernel_camp/fat_log_module_practice/dir.c:870-880 | the next live short entry, none skipped |
| DirSlots.LiveUnlessVolume | kernel_camp/fat_log_module_practice/dir.c:870-880 | whatever its other attributes, an entry in use is live unless it is a volume label |
| FatDirectory.Directory.Scan | kernel_camp/fat_log_module_practice/dir.c:952-969 | found exactly if some live entry has the name, and the first of them |
| FatDirectory.Directory.RemoveEntries | kernel_camp/fat_log_module_practice/dir.c:995-1084 | backward stage and forward stage together mark exactly the given slots deleted, those in the buffer with their names moved up |
| DirRecords.RemoveRecord | kernel_camp/fat_log_module_practice/dir.c:1030-1084 | so exactly one record goes and no other is disturbed |
| FatDirectory.Directory.FindRoom | kernel_camp/fat_log_module_practice/dir.c:1290-1324 | the first run of n free slots, or the free slots at the end, or full; at most three buffers |
| FatDirectory.Directory.ZeroedCluster | kernel_camp/fat_log_module_practice/dir.c:1087-1134 | the cluster is cleared behind the blocks in use |
| FatDirectory.Directory.AddNewEntries | kernel_camp/fat_log_module_practice/dir.c:1198-1276 | new clusters hold the slots in order and zeros behind |
| FatDirectory.Directory.ClustersNeeded | kernel_camp/fat_log_module_practice/dir.c:1326-1373 | how many clusters an addition asks for: none, one or two |
| FatDirectory.Directory.AddEntries | kernel_camp/fat_log_module_practice/dir.c:1278-1410 | the slots stand at consecutive offsets in the first run that was free; on failure only free slots differ; it succeeds exactly if there is a free run that ends before slot 65535, or fewer than 65536 slots and clusters to be had by a directory that may grow |
| DirRecords.AddRecord | kernel_camp/fat_log_module_practice/dir.c:1278-1410 | so exactly one record is gained and no other is disturbed |
| FatDirectory.Directory.NewDir | kernel_camp/fat_log_module_practice/dir.c:1136-1195 | a new directory is `.`, `..` and cleared slots |
| VfatDirectory.NewDirectory | kernel_camp/fat_log_module_practice/dir.c:1136-1195 | and is well formed, with those two records |
| VfatDirectory.DotNames | kernel_camp/fat_log_module_practice/dir.c:1150-1170 | a dot and two dots, with blanks |
| NameText.Uni16ToX8 | kernel_camp/fat_log_module_practice/dir.c:145-183 | the text of the units before the first zero, as far as the buffer goes |
| NameText.XlateToUni | kernel_camp/fat_log_module_practice/namei_vfat.c:498-578 | units and padding of a name, with escapes, or the error |
| NameText.TextRoundTrip | kernel_camp/fat_log_module_practice/namei_vfat.c:498-578 | name to text to name is the identity exactly if `uni_xlate` is set or the code page has every unit |
| NameText.HexUnitBack | kernel_camp/fat_log_module_practice/dir.c:160-172 | the escape of a unit is its value in hexadecimal with small letters |
| NameText.NameLimit | kernel_camp/fat_log_module_practice/namei_vfat.c:513-562 | the text of a name is too long exactly if the name has more than 255 units |
| LegalNames.DigitValues | kernel_camp/fat_log_module_practice/namei_vfat.c:528-541 | the digits of an escape, of either case, and no other characters |
| ShortNames.Divide | kernel_camp/fat_log_module_practice/namei_vfat.c:333-366 | where base and extension are |
| ShortNames.BuildBase | kernel_camp/fat_log_module_practice/namei_vfat.c:368-394 | the base: the translated characters up to eight bytes, as many whole characters as go into six and into two bytes, and whether it is faithful |
| ShortNames.BuildExt | kernel_camp/fat_log_module_practice/namei_vfat.c:396-418 | the extension: as many whole characters as go into three bytes, and whether it is faithful |
| ShortNames.NumberTail | kernel_camp/fat_log_module_practice/namei_vfat.c:468-477 | the numbers 1 to 9 in order, the first that is free |
| ShortNames.Hex4Injective | kernel_camp/fat_log_module_practice/namei_vfat.c:487-493 | different tails give different names |
| ShortNames.SearchEnds | kernel_camp/fat_log_module_practice/namei_vfat.c:479-493 | stepping by 11 modulo 65536 comes to a free name exactly if one of the 65536 tails gives one |
| ShortNames.HexTail | kernel_camp/fat_log_module_practice/namei_vfat.c:479-493 | then the loop ends, within 65536 steps, with the first free one |
| ShortNames.SomeTailFree | kernel_camp/fat_log_module_practice/namei_vfat.c:479-493 | with fewer than 65536 live names there is one |
| ShortNames.UniqueTail | kernel_camp/fat_log_module_practice/namei_vfat.c:468-494 | the first name free in this order, byte by byte: the numbers 1 to 9 behind a tilde on the base cut to six bytes, then four capital hexadecimal digits on the base cut to two, of the clock less 11 for each step, a tilde, and the character of one plus bits 16 to 18 of the clock; a cut base leaves a blank in the eighth byte, and the extension stays |
| ShortNames.WhichTail | kernel_camp/fat_log_module_practice/namei_vfat.c:431-494 | an alias has a tail unless both parts are 8.3 as they stand, or tails are not asked for and the name without one is free |
| ShortNames.PlainBytes | kernel_camp/fat_log_module_practice/namei_vfat.c:422-433 | without a tail it is base and extension, each filled up with blanks, 0x05 in front for 0xE5 |
| ShortNames.CreateShortname | kernel_camp/fat_log_module_practice/namei_vfat.c:315-495 | it always ends; a name returned is new and storable; it is just base and extension exactly if both fit 8.3, or tails are switched off and that name is free, and otherwise has the first free tail; it stands alone exactly if both fit and each is noted to be in one case, with the case flags of `winnt` (by characters in `CreatedNames.AliasAlone`); `-EINVAL` and `-EEXIST` say why |
| CreatedNames.CasesMean | kernel_camp/fat_log_module_practice/namei_vfat.c:279-306 | what is noted of a stretch of characters that all have an alias: upper case exactly if it is ASCII without a small letter, lower case exactly if it is ASCII without a capital |
| CreatedNames.StandsAloneMeans | kernel_camp/fat_log_module_practice/namei_vfat.c:431-453 | base and extension stand alone exactly if the name is 1 to 8 characters, or these with a dot and 1 to 3 more, all of them legal in 8.3 names but for case, and has no small letter, or with `winnt` no part of both cases; a part is then flagged exactly if it has a small letter and `winnt` is set |
| CreatedNames.AliasAlone | kernel_camp/fat_log_module_practice/namei_vfat.c:431-453 | so for every alias made: it stands alone, with these flags, exactly for such a name, and its bytes are the capitals of both parts |
| VfatDirectory.CaseBits | kernel_camp/fat_log_module_practice/namei_vfat.c:434-450 | and so are those an entry is created with |
| LegalNames.NumberShown | kernel_camp/fat_log_module_practice/namei_vfat.c:472-476 | a number tail is a tilde and its digit |
| LegalNames.TailReads | kernel_camp/fat_log_module_practice/namei_vfat.c:487-490 | a hexadecimal tail, read as an escape, is the number it was made of |
| LegalNames.AliasLegal | kernel_camp/fat_log_module_practice/namei_vfat.c:235-238 | every byte of an alias is a capital letter, a digit, one of the marks allowed in 8.3 names, a byte from 0x7F or a blank at an end |
| LegalNames.AliasChar | kernel_camp/fat_log_module_practice/namei_vfat.c:263-306 | an ASCII character becomes its capital form if that may stand in an alias; else dots and blanks are dropped and an underscore stands for the rest |
| LegalNames.AliasOther | kernel_camp/fat_log_module_practice/namei_vfat.c:279-306 | any other character: an underscore if the page does not have it; as bytes of the same capital the same alias, which is that capital; of several bytes what is shown as the character again |
| NameBytes.LegalCharacters | kernel_camp/fat_log_module_practice/namei_vfat.c:235-238 | the characters of 8.3 names, written out |
| NameBytes.CapitalOf | kernel_camp/fat_log_module_practice/namei_msdos.c:69 | each small letter has the capital at its place in the alphabet, and nothing else changes |
| LegalNames.CharacterSets | kernel_camp/fat_log_module_practice/namei_vfat.c:185-208 | VFAT forbids the characters an MS-DOS mount does, and `/`; of the others just those skipped or replaced may not stand in an alias |
| VfatDirectory.FewNames | kernel_camp/fat_log_module_practice/dir.c:1278-1320 | a well-formed directory has fewer than 65536 live names |
| DirSlots.LongNameRoundTrip | kernel_camp/fat_log_module_practice/namei_vfat.c:600-655 | the slots written for 1 to 255 units form one record and parse back to them, with their number and the checksum of the alias, anywhere in a directory |
| DirSlots.LongSlotFields | kernel_camp/fat_log_module_practice/namei_vfat.c:626-636 | where id, units, attribute, checksum and the two fields that are zero stand in a long slot |
| VfatDirectory.LayOut | kernel_camp/fat_log_module_practice/namei_vfat.c:626-653 | the loop that fills the slots, last piece first |
| VfatDirectory.BuildSlots | kernel_camp/fat_log_module_practice/namei_vfat.c:580-655 | the slots of an accepted name: its units in pieces, and a short entry that bears the alias made for it in this directory, whose case flags are those of the name when it stands alone, and whose fields are those asked for; otherwise why the name is refused: no translation, too long, a forbidden character, no base, or its 8.3 form taken |
| CreatedNames.SlotCount | kernel_camp/fat_log_module_practice/namei_vfat.c:600-655 | a name gets one slot exactly if it stands alone, by its characters, and then which entry |
| CreatedNames.OneSlotMade | kernel_camp/fat_log_module_practice/namei_vfat.c:600-655 | and such a name, if its capitals are not in the directory, does get that entry |
| VfatDirectory.StartRoundTrip | kernel_camp/fat_log_module_practice/fat.h:265-278 | the start cluster comes back exactly if the table has 32 bits or the number fits 16 |
| VolumeDirectory.StartComesBack | kernel_camp/fat_log_module_practice/fat.h:265-278 | so on every volume in order the start cluster a directory entry is written with is the one read from it |
| EntryInode.EntryFields | kernel_camp/fat_log_module_practice/namei_vfat.c:637-653 | where kind, flags, times and size of a new entry stand |
| EntryInode.CreatedFills | kernel_camp/fat_log_module_practice/inode.c:461-519 | an inode filled from the entry a create wrote has the kind and cluster asked for, size zero, the time of change to 10 ms, that of modification to two seconds and the local midnight of the day of access |
| EntryInode.NoDates | kernel_camp/fat_log_module_practice/inode.c:511-515 | an entry without dates gives local midnight of 1 January 1980 as time of change and of access |
| EntryInode.FilledTimes | kernel_camp/fat_log_module_practice/inode.c:461-519 | any entry: the three times are those it stands for, and it is a directory exactly if it has that attribute and is in use |
| EntryInode.WrittenBack | kernel_camp/fat_log_module_practice/inode.c:783-798 | an inode written back to its entry and filled from it again: first cluster, kind and size of a file come back, times as far as a stamp has them; the name stays |
| EntryInode.RoundedStays | kernel_camp/fat_log_module_practice/inode.c:783-798 | a second round changes nothing more |
| VfatDirectory.IsUsedBadChars | kernel_camp/fat_log_module_practice/namei_vfat.c:210-222 | true exactly for names with a forbidden character or a space at the end |
| VfatDirectory.StripTail | kernel_camp/fat_log_module_practice/namei_vfat.c:92-102 | the name without its trailing dots |
| VfatDirectory.ReadBack | kernel_camp/fat_log_module_practice/dir.c:283-343 | slots of a long name placed by an add, wherever there was room, parse back as that name |
| VfatDirectory.AddEntry | kernel_camp/fat_log_module_practice/namei_vfat.c:657-691 | for the name without its trailing dots the directory gains exactly its record and stays well formed: one live short entry per name; it fails for lack of room exactly if there is no free run and the directory is full, fixed or gets no cluster, else with the reason of the refusal; on failure its records and its length are as before |
| VfatDirectory.Find | kernel_camp/fat_log_module_practice/namei_vfat.c:693-700 | for the name without its trailing dots: the first record that bears it, or there is none |
| VfatDirectory.Unlink | kernel_camp/fat_log_module_practice/namei_vfat.c:835-859 | for the name without its trailing dots: the directory loses exactly one record, the first that bears it, or none does and nothing changes |
| VfatDirectory.FoundAfterCreate | kernel_camp/fat_log_module_practice/namei_vfat.c:657-700 | after a create of a name no record bore, the search, however it compares names, ends at the new record exactly if that one bears the name |
| VfatLookup.ShowPart | kernel_camp/fat_log_module_practice/dir.c:378-445 | the loop over base or extension, one to several bytes a character, with the blanks at the end dropped |
| VfatLookup.ParseShort | kernel_camp/fat_log_module_practice/dir.c:354-461 | the text of an entry's 8.3 name with its case flags: the units of both parts with a dot between, through the mount's code page; the buffer is never too small |
| VfatLookup.ShownCases | kernel_camp/fat_log_module_practice/dir.c:384-430 | bit 3 of the case flags is for the base, bit 4 for the extension |
| VfatLookup.WideKeepsCase | kernel_camp/fat_log_module_practice/dir.c:192-241 | the case flags of an entry change characters of one byte only |
| VfatLookup.UnknownShown | kernel_camp/fat_log_module_practice/dir.c:196-231 | a byte that begins no character is shown as a question mark, and without `uni_xlate` so is a unit that has none |
| VfatLookup.AloneShown | kernel_camp/fat_log_module_practice/dir.c:354-461 | the units of an entry that stands alone are those it was made for, case included, or these in lower case on a mount that shows names so |
| VfatLookup.AloneText | kernel_camp/fat_log_module_practice/dir.c:354-461 | and so is its text |
| CreatedNames.LongTextIsName | kernel_camp/fat_log_module_practice/dir.c:145-183 | the text of a long name is the name it was made of, as the mount compares names, exactly if each escape is of a unit without a character and, on a strict mount, has small digits |
| CreatedNames.RecordBears | kernel_camp/fat_log_module_practice/dir.c:501-528 | for every name and setting: the record of a created name bears it exactly if its escapes are such, and it is not an 8.3 name in one case with a capital letter, shown in lower case and compared strictly |
| CreatedNames.CreateThenFind | kernel_camp/fat_log_module_practice/dir.c:466-542 | a create followed by a search for the same name ends at the new record, exactly under that condition, and misses otherwise |
| CreatedNames.LoweredName | kernel_camp/fat_log_module_practice/dir.c:243-256 | `FOO` created in an empty directory with `shortname=lower` is not found on a strict mount, and is found with any other setting that shows or compares names otherwise |
| CreatedNames.EscapedName | kernel_camp/fat_log_module_practice/namei_vfat.c:523-547 | `:0041` created in an empty directory is the one entry of `A` and is not found, whatever the settings |
| VfatLookup.SearchAnswers | kernel_camp/fat_log_module_practice/dir.c:258-269 | on a VFAT mount a search misses exactly if the name differs, by more than case unless the mount is strict, from the 8.3 text and the long text of every record, and else ends at the first record it does not differ from |
| VfatLookup.OthersAnswered | kernel_camp/fat_log_module_practice/dir.c:466-542 | so making or removing a record with other texts leaves the search for a name as it was |
| VfatLookup.CreateLeavesOthers | kernel_camp/fat_log_module_practice/namei_vfat.c:657-700 | a create leaves the search for every name as it was that differs by more than case from the one made and from its alias |
| VfatLookup.FoundByAlias | kernel_camp/fat_log_module_practice/dir.c:501-516 | a name with long slots is found by its alias as well |
| VfatDirectory.GoneAfterUnlink | kernel_camp/fat_log_module_practice/namei_vfat.c:835-859 | an unlinked name is no longer found |
| VfatDirectory.OthersUnmoved | kernel_camp/fat_log_module_practice/namei_vfat.c:657-700 | making or removing a record leaves the answer for every name it does not bear as it was |
| VolumeDirectory.AddressesApart | kernel_camp/fat_log_module_practice/dir.c:84-118 | different slots of a directory are different bytes of the volume |
| VolumeDirectory.SlotPlace | kernel_camp/fat_log_module_practice/dir.c:84-118 | `fat_bmap` leads to those bytes, behind the tables and on the disk |
| VolumeDirectory.WriteSlots | kernel_camp/fat_log_module_practice/dir.c:1330-1361 | written slots stand on the volume; no other byte of the volume changes, nor any table entry |
| VolumeDirectory.PlaceSlots | kernel_camp/fat_log_module_practice/dir.c:1278-1410 | the clusters the slots need, and no more, are those next fit gives and hang behind the directory, and the hint moves with them; there is no room exactly if it has no free run and is full or too few clusters are free, and then table and chain are as before |
| VolumeDirectory.RoomDecides | kernel_camp/fat_log_module_practice/dir.c:1292-1391 | a directory that may grow takes slots exactly if there is a free run that ends before slot 65535, or it has fewer than 65536 slots and the volume has clusters for what the free slots at its end do not hold; `VolumeDirectory.AddName` succeeds just then |
| VolumeDirectory.AddName | kernel_camp/fat_log_module_practice/namei_vfat.c:657-691 | a create on the volume, for the name without its trailing dots: ownership and all invariants kept, the slots read from the bytes of the chain are the old records and the new one, new clusters are those next fit gives, and no byte but the directory's slots and the tables changes; no room exactly as for placing the slots |
| VolumeDirectory.RemoveName | kernel_camp/fat_log_module_practice/namei_vfat.c:835-859 | an unlink on the volume with the eviction behind it: the slots in the directory's blocks lose exactly the record, the file's clusters and no others become free and are counted, ownership and all invariants kept, no byte but the directory's slots and the tables changes; without such a name nothing changes; where the entry has the start of the inode, the clusters freed are those it leads to |
| MsdosNames.FormatName | kernel_camp/fat_log_module_practice/namei_msdos.c:19-116 | by the characters, for every name and setting: a name with a dot in front is refused unless those are allowed, and else becomes what the rest does; any other name, and that rest, is accepted exactly under the conditions of `MsdosNames.FormatAccepts` and becomes the eleven bytes said there |
| MsdosNames.ParseShort | kernel_camp/fat_log_module_practice/dir.c:354-461 | the text shown for eleven bytes on an MS-DOS mount |
| MsdosNames.FormatShown | kernel_camp/fat_log_module_practice/namei_msdos.c:19-116 | formatting the text shown of a formatted name gives the same eleven bytes |
| MsdosNames.FormattedLive | kernel_camp/fat_log_module_practice/namei_msdos.c:19-116 | a formatted name never reads as free or deleted |
| MsdosNames.FormattedLegal | kernel_camp/fat_log_module_practice/namei_msdos.c:14-116 | which bytes it has, for each setting of the check |
| MsdosNames.FormatAccepts | kernel_camp/fat_log_module_practice/namei_msdos.c:14-116 | which names are accepted, by characters, for each setting: up to eight before the first dot, at least one, up to three behind it, none that may not be stored, no blank at an end; on a strict mount no more, no capitals, no blanks and no second dot; and each byte stored is the capital of its character, or that itself if case is kept |
| Recovery.Recover | kernel_camp/fat_recovery_lecture/fat_recovery.c:57-92 | for any argument the first deleted slot that matches gets its name moved back and EOF at its link; without a match the disk is as it was |
| Recovery.DeleteFile | kernel_camp/fat_log_module_practice/dir.c:1030-1084 | removing the slots of a one-cluster file in the first cluster of the root directory and freeing its cluster, on the volume; no byte but those slots and the tables changes, and copies of the table that were equal are so afterwards |
| Recovery.FoundExactly | kernel_camp/fat_recovery_lecture/fat_recovery.c:58-65 | after that deletion the program picks the file if and only if no earlier slot matches, none of its long slots does, and the argument begins its name |
| Recovery.DeleteThenRecover | kernel_camp/fat_recovery_lecture/fat_recovery.c:57-92 | it then decodes the same table as before the deletion, has the entry back but for the eleventh byte, and every other slot as the deletion left it |
| Recovery.ContentsBack | kernel_camp/fat_recovery_lecture/fat_recovery.c:57-92 | and the contents of the file: every byte outside the tables and the file's slots is as before the deletion |
| Recovery.RecoveryExact | kernel_camp/fat_recovery_lecture/fat_recovery.c:78-82 | the entry is as before exactly if the last two bytes of its name are equal |
| Recovery.LongNameMissed | kernel_camp/fat_recovery_lecture/fat_recovery.c:57-92 | a deleted `a b` is not found by `A`: its long slot is taken for the entry |
| Recovery.CopiesDiffer | kernel_camp/fat_recovery_lecture/fat_recovery.c:84-87 | after the recovery of a file deleted with all copies of the table equal, they are equal exactly if there is one copy: the program writes EOF into the first alone |
| FatTime.UnixFatUnix | kernel_camp/fat_log_module_practice/misc.c:194-267 | stored and read back a time is rounded down to 10 ms, for any offset, exactly if its local year is 1980 to 2107 |
| FatTime.FatUnixFat | kernel_camp/fat_log_module_practice/misc.c:194-267 | a valid stamp read and stored is the same stamp |
| FatTime.WithoutCentiseconds | kernel_camp/fat_log_module_practice/misc.c:222-228 | a time read without the centiseconds field, as modification times are, is rounded down to two seconds |
| FatTime.StampInstant | kernel_camp/fat_log_module_practice/misc.c:217-229 | a valid stamp stands for the instant at which local time is what it shows; local time is ahead of UTC by the offset set, or behind it by the system's minutes west |
| FatTime.AnyStampInstant | kernel_camp/fat_log_module_practice/misc.c:194-230 | for any bytes: a month or day of zero is the first, a month above twelve is January, one day later in a leap year, and hours, minutes, pairs of seconds and centiseconds are added as they stand |
| FatTime.StampShows | kernel_camp/fat_log_module_practice/misc.c:233-267 | the stamp made of a time shows its local date and time of day to two seconds, the rest in the centiseconds; outside 1980 to 2107 it shows the first or the last moment |
| FatTime.FormulaYears | kernel_camp/fat_log_module_practice/misc.c:200-215 | the leap-day formula is the Gregorian day count, 2100 included |
| FatTime.FormulaMonths | kernel_camp/fat_log_module_practice/misc.c:200-215 | and so is the month table |
| ConditionGate.InvKept | ITRC/all/sync_funcs.c:207-280 | every step of every thread keeps: mutex held by one, counters equal to the threads inside, at most one writer, a sleeper never alone |
| ConditionGate.Exclusion | ITRC/all/sync_funcs.c:243-280 | over every run a writer inside excludes every other thread |
| ConditionGate.NoLostWakeup | ITRC/all/sync_funcs.c:207-280 | over every run some thread is awake while one sleeps, though only one is signalled at a time |
| ConditionGate.NotStuck | ITRC/all/sync_funcs.c:207-280 | some thread can move until all are done |
| ConditionGate.RunBound | ITRC/all/sync_funcs.c:207-280 | without spurious wake-ups every run is finite |
| ConditionGate.RunEnds | ITRC/all/sync_funcs.c:207-280 | a run that cannot go on has all threads done and the counters at zero |
| ConditionGate.ReaderWriterEnds | ITRC/all/sync_funcs.c:207-280 | at most 36 moves a thread |
| ConditionGate.LetIn | ITRC/all/sync_funcs.c:222-265 | over every run a reader at its test gets in with its next move exactly if no writer is inside, a writer exactly if nobody is, and otherwise goes to sleep |
| ConditionGate.ReadersTogether | ITRC/all/sync_funcs.c:222-234 | from any start there is a run after which all readers are inside together |
| ConditionGate.CounterResult | ITRC/sync/sync_cnd.c:83-137 | with the increment split in load and store, every complete schedule of n threads and k rounds ends with n * k |
| SemaphoreGate.InvKept | ITRC/all/sync_funcs.c:144-200 | every step keeps: semaphores and counts agree with the threads, readers as a group hold the writers' semaphore |
| SemaphoreGate.Exclusion | ITRC/all/sync_funcs.c:177-200 | over every run a writer writing excludes readers and other writers |
| SemaphoreGate.NoDeadlock | ITRC/all/sync_funcs.c:144-200 | over every run some thread can move until all are done |
| SemaphoreGate.RunBound | ITRC/all/sync_funcs.c:144-200 | at most eight moves a thread |
| SemaphoreGate.WriterLetIn | ITRC/all/sync_funcs.c:177-200 | over every run a writer may go on exactly if no thread writes and no reader has the writers' semaphore for the group |
| SemaphoreGate.ReaderLetIn | ITRC/all/sync_funcs.c:155-164 | a counted reader is let in exactly if no thread writes |
| SemaphoreGate.ReadersTogether | ITRC/all/sync_funcs.c:155-168 | from any start there is a run after which all readers are inside together |

## Left out

- Block I/O that fails, and with it the error paths it leads to; sync and dirty marking, readahead, discard requests.
- `FatInode.Inode.ChainAdd`: the branches for a chain that breaks or a write that fails are dead on the well-formed chain it asks for, so a link written before a failing mirror is not modelled.
- Memory that runs out, but for the list element of `FatInode.Inode.CacheAdd`, where it is a parameter.
- Concurrency inside the driver: a walk and a truncate of the same inode, which the source leaves to its callers, and the locks.
- `FatVolume.Volume.Mount`: takes a layout that is in order and a disk that holds the tables; which boot sectors give such a layout is `FatMount.MountedValid`, and the size of the device is not compared, as in the source.
- `FatMount.MountedValid`: the bounds `MAX_FAT12`, `MAX_FAT16` and `MAX_FAT32` are parameters, the media byte a flag; the layout of DOS 1.x floppies and failures of the block device are left out.
- Wrap-around of the free counter, beyond its value -1 for "not known".
- Sizes that are powers of two: shifts and masks are divisions and remainders, so they need not be.
- `VfatDirectory.AddEntry`: on slots only; what comes of asking for clusters is a parameter here, and the allocator's answer in `VolumeDirectory.AddName`.
- `VolumeDirectory.AddName`: asks for clusters before it writes the first slot, where the source writes the free slots at hand first and takes them back on failure; directories that are chains only, not the fixed root area of 12- and 16-bit tables.
- `VolumeDirectory.RemoveName`: the inode whose clusters are freed is the one handed over with the name, as in the source; its entry has its start once it has been written back (`EntryInode.WrittenBack`), and when that happens is not part of the model.
- `FatDirectory.Directory.AddEntries`: positions are counted in slots, and references to directory buffers are not counted.
- `FatDirectory.Directory.SearchLong`: comparing names and showing them are parameters; those of a VFAT mount are `VfatLookup.Lookup`.
- `NameText.XlateToUni`: the UTF-8 branch is left out, because all of it is a function of the kernel's character tables.
- `LegalNames.AliasLegal`: takes characters of several bytes to have none of ASCII; where they have, such a byte may be anything.
- `EntryInode.CreatedFills`: the size of a directory is not in its entry (`FatInode.Inode.CalcDirSize`); mode and owner are left out.
- `EntryInode.WrittenBack`: on the bytes of the entry; attributes other than that of a directory are a parameter, and finding the entry of an inode again is left out.
- The character tables themselves: a code page is a map with an inverse, and `VfatLookup` takes it to be ASCII below 0x7F (`VfatLookup.PagesOk`) and, in `CreatedNames`, to write ASCII as itself and a colon as nothing else (`CreatedNames.CreatedOk`); pages of ASCII alone meet all of this (`CreatedNames.AsciiMeets`).
- `MsdosNames.ParseShort`: MS-DOS mounts only; of VFAT mounts it is `VfatLookup.ParseShort`.
- Rename, readdir, attributes, ioctl, NFS handles, mount options, dentries.
- `Recovery.Recover`: memory behind the buffer of the cluster, which an argument that matches up to its end would be compared with, is taken to differ; what the program prints is left out.
- `Recovery.DeleteThenRecover`: files of one cluster, the case the program is for; of a longer file it would bring back the first.
- `ConditionGate.RunBound`: spurious wake-ups are moves of the machine, and kept by every other result, but with them a run need not end.
- Reading and writing the shared file, and the time statistics of the threads.
- Programs with one lock around each access (`sync_mtx.c`, `sync_spl.c`, `read_mutex`, `read_rwl`), kernel probes and the empty labs: they would add only easy members.
