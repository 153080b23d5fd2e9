# Two file-system engines, verified

A Dafny model of the two file-system engines that Ventoy's `vtoydump` tool links in, and of its own extent extractor,
with proofs of what they promise:

* **exFAT** (`src/libexfat`, after the Microsoft exFAT specification, sections 4.1, 7.1, 7.4, 7.6 and 7.7): a bitmap
  allocator that keeps every file's clusters either as a contiguous run or as FAT links, growing, shrinking, erasing,
  reading and writing through those chains, directory entry sets with their checksum, the search for room in a
  directory, and the tree of cached nodes.
* **FAT16/32** (`src/fat_io_lib`): a FAT behind a write-back list of sector buffers, chains followed, freed and appended
  through it, directories with long names, and files read through two cluster caches and a sector buffer.
* **Extents and codecs**: a chain turned into a list of disk regions (`lsexfat.c`), the size of a root directory on an
  unchecked FAT (`mount.c`), exFAT timestamps (`time.c`) and UTF-8/UTF-16 names (`utf.c`; RFC 3629 section 3 and
  RFC 2781 section 2).

`dafny verify dfyconfig.toml` checks all of it.

## How it is laid out

Code that changes things in place is a class or a method over arrays and fields (`Cluster.ExFat`, `FatTable.FatFs`,
`FatFile.FlFile`, `FatDirectory.Directory`, `NodeTree.Forest`, `Extents.ImageLocation`), proved against functions on
values; the lemmas are about those functions.

| files | what they model |
|---|---|
| Arithmetic, Bitmap, Chains, FlatFile | arithmetic helpers; the cluster bitmap; chains, their two encodings and who owns which cluster; a file as bytes over its clusters |
| Cluster, Volume, FileIo, Replay | `cluster.c` on one file; `exfat_truncate` over a volume; reading and writing; whole runs |
| Extents, RootDir | `lsexfat.c`; `rootdir_size` |
| Octets, EntrySets, Placement, DirectorySlots, NodeTree | `node.c`: entry sets, what the allocator guarantees of them, the search for room, the tree |
| TimeCodec, Utf | the two codecs |
| SectorCache, FatChains, FatEntries, FatTable | the buffer list as a value; FAT chains as a value; entries inside sectors; `fat_table.c` on buffers |
| FatAllocation, FatReplay | searching, freeing, appending and allocating through the buffers; whole runs of that |
| FatNames, FatListing, FatDirectory | long-name records; what a scan of records lists; the directory code |
| FatFile, FatFileRuns | `fl_fread` and `fl_fseek`; whole runs of them |

## Main results

* **exFAT runs.** Over any run of truncates, writes and reads on any files, chains stay acyclic, in range and disjoint, a
  bit is set exactly when its cluster has an owner, both encodings denote each file's chain, cursors stay right, and
  every answer is that of flat byte files, up to the first operation that meets the guard below or asks for 2^32
  clusters or more (`Replay.Run`). It rests on `Volume.Truncate`, whose contract says exactly when the volume is
  consistent afterwards.
* **The guard at `cluster.c:283`** is modelled as written (`next != previous - 1`), although its comment means
  `previous + 1`. Written so, it drops the contiguous flag on any ordinary growth, which is safe, and fails in one case: a
  one-cluster contiguous file grows while the only free cluster is the one just before it (`Chains.LoneBackward`). There
  `exfat_truncate` breaks the volume, and the contract of `Volume.Truncate` says what bitmap, heap and result it leaves.
  `Volume.LoneVolume` reaches such a state from an empty volume, `Volume.BreakVolume` goes on to a volume that is not
  consistent although every call succeeded.
* **Sizes of 2^32 clusters or more.** The cluster count is cut to 32 bits, so a truncate without erasing to such a size
  succeeds when the remainder of clusters can be had, and leaves a file whose clusters cannot hold its size
  (`Volume.Truncate`; `Volume.GrowPast` frees a whole file by growing it). Short of erasing that far, which is not
  modelled, these two cases are all: otherwise the volume stays consistent.
* **FAT buffers are invisible.** What readers see does not change with any buffer being read, evicted, written back or
  failing to be; a purge that succeeds leaves it on the disk; chains grow and shrink through the buffers as on a plain
  table, over whole runs of creations, appends and frees (`FatReplay.Run`).
* **Directories.** Adding a long-named entry lists it, keeps everything else listed in the same order, and the lookup then
  finds it unless an entry before it matches first (`FatDirectory.Directory.AddThenLookUp`).
* **Extents.** The region list of a file gives back every whole image sector exactly when no such sector is spread over
  clusters that are not adjacent (`Extents.ExtractIsFaithful`).
* **Round trips**, each with the exact condition under which it holds: timestamps both ways (`TimeCodec`), names from
  UTF-16 to UTF-8 and back and from UTF-8 to UTF-16 and back (`Utf`), names through long-name records (`FatNames`), and
  nodes through directory entry sets (`EntrySets`).

Where the code does not do what its callers would expect, the exact condition is proved beside it:
`Volume.ClusterCountExact` and `Volume.Truncate` (files of 2^32 clusters or more), `Utf.Utf16RoundTrip` (UTF-8 that is
not in its shortest form), `Extents.ExtractIsFaithful` (fragments inside an image sector, which need clusters below 2048
bytes), `FatFile.ReadIsLimited` (position plus count past 2^32), `FatFile.NegativeReads` (negative counts) and
`FatFile.SeekIsClamped` (seeks past 2^32), `FatAllocation.CountIsExact` (FAT32 entries that are zero in 28 bits only),
`FatNames.NameRoundTrip` (names over 260 bytes or with byte 0xFF), `FatListing.EntryIsFound` (short names that look
deleted), `FatListing.IndependentExactly` (long names with missing parts), `FatChains.Append` (entries past the last data
cluster), `DirectorySlots.FindSlot` (entries in use at the end of the root directory), `Placement.AllocatorPlaces`
(directories that do not fill their last cluster), `TimeCodec.StampRoundTrip` (dates and times that the calendar does not
have), `EntrySets.CommitEntry` and `EntrySets.RenameEntry` (empty names).

## Model

| member | source | states |
|---|---|---|
| Bitmap.SetOneBit | src/libexfat/exfat.h:62-63 | setting a bit with a one-digit mask sets that bit of the map and no other |
| Bitmap.ClearOneBit | src/libexfat/exfat.h:64-65 | clearing a bit clears that bit of the map and no other |
| Bitmap.FullWord | src/libexfat/cluster.c:123-126 | a word equal to ~0 has no clear bit, so skipping it skips no candidate |
| Bitmap.FindBitAndSet | src/libexfat/cluster.c:114-137 | claims the lowest clear bit of the range, found as a bit-by-bit scan would, and leaves the rest of the bitmap alone; the end of the range and no change when there is none |
| Bitmap.FirstClearUnique | src/libexfat/cluster.c:114-137 | any position with only set bits before it and a clear bit at it (or the end) is the one the search returns |
| Chains.LinkedIsWalk | src/libexfat/cluster.c:73-90 | start, flag, FAT and length determine a chain: it is what following the links meets |
| Chains.DenotesElsewhere | src/libexfat/cluster.c:174-192 | a chain whose own links were not written is still denoted by its start and flag |
| Chains.ExclusiveGrow | src/libexfat/cluster.c:239-302 | claiming free clusters for one chain keeps chains acyclic, in range and disjoint, and the bitmap exact |
| Chains.ExclusiveShrink | src/libexfat/cluster.c:304-359 | releasing the end of one chain keeps all of that |
| Chains.ScanIsCircularFirstFit | src/libexfat/cluster.c:194-213 | the cluster chosen is the first free one going round from the hint; none is reported only when the bitmap is full |
| Chains.ExtendClaimsFree | src/libexfat/cluster.c:239-302 | the clusters a grow claims one after another were all free, and are distinct |
| Chains.ExtendLength | src/libexfat/cluster.c:239-302 | a grow gets all it asks for, or else all that is free |
| Chains.CountClearMarked | src/libexfat/cluster.c:440-449 | claiming k clusters lowers the free count by k, releasing them raises it by k |
| Chains.BackwardIffLone | src/libexfat/cluster.c:274-291 | a one-cluster file steps back to the cluster before it exactly when that is the only free one |
| Chains.LoneExample | src/libexfat/cluster.c:283 | it happens: with only cluster 3 of 2, 3, 4 free, the file at cluster 4 gets cluster 3, and the cluster behind 4 that the flag then names is out of range |
| Chains.FreshNeverBackward | src/libexfat/cluster.c:259-283 | all clusters before a file's first one are taken, and its second one is never the one before |
| Cluster.ExFat.NextCluster | src/libexfat/cluster.c:73-90 | the next cluster under either encoding |
| Cluster.ExFat.AdvanceCluster | src/libexfat/cluster.c:92-112 | the same cluster as a walk from the start, and the cursor ends on it, for every index of the chain |
| Cluster.ExFat.SetNextCluster | src/libexfat/cluster.c:174-192 | writes one link, or none for a contiguous file |
| Cluster.ExFat.AllocateCluster | src/libexfat/cluster.c:194-213 | claims the circular first fit, and reports the end mark with no change when the bitmap is full |
| Cluster.ExFat.FreeCluster | src/libexfat/cluster.c:215-223 | clears exactly the cluster's bit |
| Cluster.ExFat.MakeNoncontiguous | src/libexfat/cluster.c:225-234 | links each cluster of the run to the one after it and touches no other entry |
| Cluster.ExFat.LinkCluster | src/libexfat/cluster.c:283-293 | the chain gains its next cluster and becomes linked, unless a contiguous chain stepped back by one, when nothing is written |
| Cluster.ExFat.GrowFile | src/libexfat/cluster.c:239-302 | the chain becomes itself plus the claimed clusters, terminated, or after running out of space the chain and bitmap are what they were; in the lone backward case the bitmap is given bit by bit: the cluster before is claimed and, when space runs out, stays claimed while the one behind, someone else's, is given back |
| Cluster.ExFat.ShrinkFile | src/libexfat/cluster.c:304-359 | the chain becomes its own prefix, the rest is given back and unlinked, the cursor is rewound; -EIO exactly when the last link is out of range |
| Cluster.ExFat.EraseRange | src/libexfat/cluster.c:371-404 | the bytes of the range read zero, those before it are untouched, and so is every other file; when the last link is out of range the call fails or aborts, having touched this file only |
| Volume.ClusterCountExact | src/libexfat/cluster.c:67-71 | the 32-bit cluster count is the true one exactly for sizes below 2^32 clusters |
| Volume.CountFreeClusters | src/libexfat/cluster.c:440-449 | the count is that of the clear bits |
| Volume.AddNode | src/libexfat/node.c:120-130 | a zeroed node joins a consistent volume as an empty file, and every other file keeps its bytes and chain |
| Volume.Resize | src/libexfat/cluster.c:419-425 | one chain gets the wanted length by free clusters or by a cut, -ENOSPC exactly when the free clusters do not suffice, and then nothing has changed |
| Volume.Settle | src/libexfat/cluster.c:406-438 | once one file has its new chain the whole volume is consistent and no other file's chain has moved |
| Volume.ResizedFree | src/libexfat/cluster.c:406-449 | free clusters plus the file's clusters are conserved |
| Volume.ResizedContent | src/libexfat/cluster.c:406-438 | cutting keeps a prefix of the bytes, extending keeps them all, erasing appends zeros |
| Volume.Truncate | src/libexfat/cluster.c:406-438 | the volume is consistent afterwards if and only if it was not the lone backward case and the call did not succeed with a size of 2^32 clusters or more; for the one the resulting bitmap, FAT, flag, start, heap and result are stated, for the other the chain has the truncated count of clusters, fewer than the size needs; otherwise success exactly when the clusters suffice, the file is its old bytes cut or extended (with zeros when erasing), all other files and chains are untouched and free space changes by the difference in clusters |
| Volume.LoneVolume | src/libexfat/cluster.c:406-438 | creating three one-byte files on an empty volume of three clusters and emptying the second leaves a consistent volume where growing the third is the lone backward case |
| Volume.BreakVolume | src/libexfat/cluster.c:283 | growing it succeeds and leaves a volume that is not consistent |
| Volume.GrowPast | src/libexfat/cluster.c:67-71 | growing any file of a consistent volume to 2^32 clusters succeeds, frees every cluster it has, and leaves a volume that is not consistent |
| FileIo.GenericPread | src/libexfat/io.c:373-416 | the exact slice of the file, shortened at its end, and nothing on the volume changes |
| FileIo.GenericPwrite | src/libexfat/io.c:418-474 | the flat write: a gap past the end reads zero, the data replace what was there, -ENOSPC as the flat file would, every other file untouched |
| FileIo.FlatWriteMeaning | src/libexfat/io.c:418-474 | byte by byte what a flat write means: length, data in place, old bytes elsewhere, zeros in the gap |
| FileIo.FlatTruncated | src/libexfat/cluster.c:406-438 | a truncate with erase is the flat truncate |
| FileIo.ReadInCluster | src/libexfat/io.c:394-412 | one chunk extends what was read by exactly the file's next bytes |
| FileIo.WriteInCluster | src/libexfat/io.c:450-468 | one chunk changes exactly those bytes of the file and no other file |
| Replay.Perform | src/libexfat/io.c:373-474 | one truncate, write or read does to all files what the flat operation does |
| Replay.MisgrowsOnlyWhenTight | src/libexfat/cluster.c:274-291 | only a one-cluster file growing while exactly one cluster is free can misgrow |
| Replay.Excepting | src/libexfat/cluster.c:239-302 | the size and a scan of the bitmap decide whether an operation asks for 2^32 clusters or more or would meet the lone backward case |
| Replay.Run | src/libexfat/cluster.c:406-438 | any run of truncates, writes and reads on any files keeps the volume consistent and answers as flat files do, up to the first operation that asks for 2^32 clusters or more or meets the lone backward case |
| Replay.RunRoomy | src/libexfat/cluster.c:406-438 | a run of smaller sizes that never grows a one-cluster file while exactly one cluster is free, which flat files show, goes to its end |
| Extents.ImageLocation.Realloc | src/libexfat/lsexfat.c:33-64 | a larger table with the old regions in front |
| Extents.ImageLocation.AddDiskRegion | src/libexfat/lsexfat.c:66-117 | joins the run to the last region or appends it, through any doubling of the table |
| Extents.ImageLocation.TakeChunk | src/libexfat/lsexfat.c:145-159 | one cluster extends the run or closes it, without changing the final list |
| Extents.ImageLocation.GetImageLocation | src/libexfat/lsexfat.c:119-165 | the list of regions is that of the file's chain, and on a consistent volume faithful exactly when every whole image sector lies within one run of adjacent clusters; -EIO and no regions for an empty file |
| Extents.CloseRun | src/libexfat/lsexfat.c:66-117 | recording a run continues the tiling and never leaves two regions that could be one |
| Extents.CollectExactly | src/libexfat/lsexfat.c:119-165 | every state of the cluster loop ends in a faithful list exactly when each later break between clusters falls between image sectors, or behind the last whole one |
| Extents.ExtractIsFaithful | src/libexfat/lsexfat.c:119-165 | for every cluster size in disk sectors: the regions tile image sectors from 0 to size/2048, each claimed byte is the file's byte at that disk place, and no two neighbours could be merged, exactly when every whole image sector lies within one run of adjacent clusters |
| Extents.WholeClustersAreFaithful | src/libexfat/lsexfat.c:119-165 | so with clusters that are multiples of 2048 bytes they always do |
| Extents.SmallClusters | src/libexfat/lsexfat.c:66-117 | two instances with 1024-byte clusters: two clusters apart lose their sector, two pairs apart lose none |
| RootDir.EndingIsAcyclic | src/libexfat/mount.c:31-59 | a chain that reaches the end mark meets no cluster twice |
| RootDir.EndsInTime | src/libexfat/mount.c:41-46 | so the cut-off at the cluster count never rejects it |
| RootDir.RootdirSize | src/libexfat/mount.c:31-59 | on every FAT: non-zero exactly when the chain ends through valid clusters, and then its length in bytes |
| EntrySets.CheckEntries | src/libexfat/node.c:163-205 | accepts exactly the sets whose types follow one another as they may |
| EntrySets.NamesInOrder | src/libexfat/node.c:163-205 | one file, one info and n name entries are in order exactly when n > 0 |
| EntrySets.SumSkipsItself | src/libexfat/utils.c:56-95 | storing the checksum in its field does not change the checksum |
| EntrySets.CalcChecksum | src/libexfat/utils.c:86-95 | the loop computes the rotating sum over all entries but the field's two bytes |
| EntrySets.CheckNode | src/libexfat/node.c:207-294 | accepts exactly when checksum, valid size, size, start cluster and flag are as required |
| EntrySets.ParseFileEntries | src/libexfat/node.c:296-334 | succeeds exactly on acceptable sets, with the fields of the set; -EIO otherwise |
| EntrySets.NameReadsBack | src/libexfat/node.c:152-161 | a name split over enough name entries reads back up to its terminator |
| EntrySets.CommitEntry | src/libexfat/node.c:880-920 | the set written for a new file is accepted exactly when the name is not empty, and says name, name hash, attributes, times, size 0 and no cluster |
| EntrySets.FlushNode | src/libexfat/node.c:624-667 | sets out of order are refused untouched; others are accepted afterwards exactly when they were whole and the node's size, start and flag are as required, and then describe the node again: attributes, times, size, start, and the flag cleared for empty files; every byte outside those fields is kept, among them the name and its hash |
| EntrySets.RenameEntry | src/libexfat/node.c:1009-1045 | the set written by a rename keeps every byte of the old header but length, hash, count and checksum, and says of the file what the old one did, under the new name |
| Placement.AllocatorPlaces | src/libexfat/node.c:251-291 | on a consistent volume a file meets the conditions on size, start cluster and flag exactly when, if it is a directory, its size is in whole clusters |
| Placement.FlushFile | src/libexfat/node.c:624-667 | so flushing any file of a consistent volume over a whole set leaves one that is accepted and describes it, with that exception alone |
| DirectorySlots.BuildMap | src/libexfat/node.c:829-840 | marks exactly the entries some cached child occupies |
| DirectorySlots.CheckSlot | src/libexfat/node.c:796-816 | free outside the root; in the root exactly when no entry is in use |
| DirectorySlots.FindSlot | src/libexfat/node.c:818-878 | terminates though its index moves back; finds a slot exactly when a usable run exists, the lowest one; otherwise the slot starts in the free tail, the new size is cluster-aligned, and entries in use are overwritten exactly when one that no child accounts for lies less than n from the end with no child's entry behind it |
| DirectorySlots.ExtensionFits | src/libexfat/node.c:871-877 | the slot in an extended directory ends within the new size and takes no child's entry |
| DirectorySlots.TailIsOverwritten | src/libexfat/node.c:871-877 | the tail the extension starts in holds an entry in use exactly under that condition on the children and the disk |
| DirectorySlots.RootTailIsNotChecked | src/libexfat/node.c:871-877 | it happens in the root: no run is usable, and the last entry, in use, is overwritten |
| NodeTree.DetachKeeps | src/libexfat/node.c:579-590 | detaching closes the list up, keeps all other lists and parents, and keeps the forest acyclic |
| NodeTree.AttachKeeps | src/libexfat/node.c:568-577 | attaching a loose node under a directory that is not below it keeps lists consistent and parents acyclic |
| NodeTree.AboveSame | src/libexfat/node.c:1078-1091 | moving a node changes the ancestors of nothing it is not above |
| NodeTree.Forest.Unlink | src/libexfat/node.c:579-590 | the four link updates of tree_detach |
| NodeTree.Forest.Link | src/libexfat/node.c:568-577 | the link updates of tree_attach |
| NodeTree.Forest.Detach | src/libexfat/node.c:579-590 | the forest stays consistent and only this node loses its parent |
| NodeTree.Forest.Attach | src/libexfat/node.c:568-577 | the forest stays consistent and only this node gains one |
| NodeTree.Forest.Create | src/libexfat/node.c:925-935 | a new node appears under its directory, and no other parent changes |
| NodeTree.Forest.Delete | src/libexfat/node.c:746-772 | the node comes off the tree exactly when its entries were erased |
| NodeTree.Forest.IsBelow | src/libexfat/node.c:1078-1091 | the upward walk ends, and answers whether the directory is the node or below it |
| NodeTree.Forest.Replace | src/libexfat/node.c:1093-1120 | the target goes only if it is of the node's kind and, for a directory, empty |
| NodeTree.Forest.Move | src/libexfat/node.c:1051-1054 | the node ends up in the directory and no other parent changes |
| NodeTree.Forest.Rename | src/libexfat/node.c:1057-1154 | the graph stays a tree: parents acyclic, child lists consistent, nobody but the moved node and the replaced target changes parent; a directory cannot go below itself (-EINVAL) and a directory with entries cannot be replaced |
| TimeCodec.MonthHolds | src/libexfat/time.c:126-138 | the month loop stops in the month that holds the day |
| TimeCodec.YearHolds | src/libexfat/time.c:123-125 | the year formula gives the year that holds the day |
| TimeCodec.FindMonth | src/libexfat/time.c:126-138 | the loop as the month it finds and the days left over |
| TimeCodec.UnixToExfat | src/libexfat/time.c:108-149 | the statements compute the date, time and centisecond fields |
| TimeCodec.UnixRoundTrip | src/libexfat/time.c:56-149 | writing a second and reading it back gives it back exactly for the 128 representable years, at any time zone offset |
| TimeCodec.WritesCalendar | src/libexfat/time.c:108-149 | whatever is written names a day of the calendar |
| TimeCodec.StampRoundTrip | src/libexfat/time.c:56-149 | reading a date and time and writing it gives every field back, centiseconds cut to 0 or 100, exactly when it is a calendar date and time |
| Utf.EncodeDecode | src/libexfat/utf.c:26-83 | each character's bytes decode to it whatever follows, and contain no NUL unless it is NUL |
| Utf.UnitsBack | src/libexfat/utf.c:85-102 | a character's units come back from it, and cost at most three bytes each |
| Utf.FailsOnlyUnpaired | src/libexfat/utf.c:104-135 | with 3n+1 bytes of room the conversion fails exactly on an unpaired high surrogate, with -EILSEQ |
| Utf.Utf8RoundTrip | src/libexfat/utf.c:104-236 | a UTF-16 name that converts to UTF-8 converts back to itself up to its terminator |
| Utf.Utf16RoundTrip | src/libexfat/utf.c:104-236 | a UTF-8 string that converts to UTF-16 converts back to itself up to its terminator exactly when every character is at most 0x10FFFF, in its shortest form with 10xxxxxx continuation bytes, and no high surrogate |
| Utf.LongFormIsLost | src/libexfat/utf.c:137-236 | it happens: the two bytes 0xC1 0x81 come back as the letter A |
| Utf.Utf16ToUtf8 | src/libexfat/utf.c:104-135 | the loop writes that string and its terminator, or fails as stated |
| Utf.Utf8ToUtf16 | src/libexfat/utf.c:205-236 | the loop writes that string and its terminator, or fails as stated |
| SectorCache.WriteBack | src/fat_io_lib/fat_table.c:83-112 | writing a dirty buffer to its sector shows readers nothing new |
| SectorCache.Rotate | src/fat_io_lib/fat_table.c:150-155 | bringing the last buffer to the front shows readers nothing new |
| SectorCache.Reuse | src/fat_io_lib/fat_table.c:158-175 | giving a clean buffer another sector, or none after a failed read, shows readers nothing new |
| SectorCache.Modify | src/fat_io_lib/fat_table.c:349-383 | changing a buffered FAT sector changes that sector for readers and no other |
| SectorCache.AllClean | src/fat_io_lib/fat_table.c:179-195 | with no dirty buffer the disk is what readers see |
| FatTable.FatFs.constructor | src/fat_io_lib/fat_table.c:60-79 | N invalid buffers, each once in the list; readers see the disk |
| FatTable.FatFs.Writeback | src/fat_io_lib/fat_table.c:83-112 | readers see the same whether or not the write succeeded; the buffer is clean only if it did |
| FatTable.FatFs.FindOrEvict | src/fat_io_lib/fat_table.c:116-156 | the sector's own buffer, or the last one moved to the front with all others in order |
| FatTable.FatFs.ReadSector | src/fat_io_lib/fat_table.c:116-175 | a buffer holding what readers see in the sector, or none on a fault; readers see the same in every case |
| FatTable.FatFs.Purge | src/fat_io_lib/fat_table.c:179-195 | success leaves the disk equal to what readers see; failure changes nothing for them |
| FatEntries.SetGet | src/fat_io_lib/fat_table.c:349-383 | an entry written reads back, cut to 16 bits on FAT16, and all other entries of the sector read the same |
| FatEntries.SetInTable | src/fat_io_lib/fat_table.c:349-383 | writing an entry in its sector changes exactly that entry of the table |
| FatTable.FatFs.FindNextCluster | src/fat_io_lib/fat_table.c:205-256 | the link of the table, masked to 28 bits and with end marks folded together; the end of the chain when the sector cannot be read |
| FatTable.FatFs.SetCluster | src/fat_io_lib/fat_table.c:349-383 | one entry of the table changes, or none when its sector cannot be read |
| FatTable.FatFs.SetFsInfo | src/fat_io_lib/fat_table.c:260-283 | the FSINFO sector gets the hint, no FAT entry changes, and no buffer holds the sector afterwards |
| FatAllocation.FindBlankCluster | src/fat_io_lib/fat_table.c:288-342 | the first free entry at or after the start; failure exactly when there is none |
| FatChains.AllEntriesClosed | src/fat_io_lib/fat_table.c:389-407 | no entry links past the table exactly when links never leave the set of all entries |
| FatChains.CycleIsInside | src/fat_io_lib/fat_table.c:389-407 | two entries that lead to each other make such a table, and both are freed |
| FatChains.TrailFollowsLinks | src/fat_io_lib/fat_table.c:389-407 | where links stay inside the table, cyclic ones included, the freed entries are distinct and follow the links to an end, a free entry or back into themselves |
| FatChains.ChainTrail | src/fat_io_lib/fat_table.c:389-407 | for a well-formed chain they are the chain |
| FatChains.FreeKeepsOthers | src/fat_io_lib/fat_table.c:389-407 | chains that share no cluster with it stay well formed |
| FatAllocation.FreeClusterChain | src/fat_io_lib/fat_table.c:389-407 | terminates and zeroes exactly those entries, for any start from which links do not leave the table |
| FatAllocation.FreeAnyChain | src/fat_io_lib/fat_table.c:389-407 | so on a table without links past its end it does for every start |
| FatChains.Append | src/fat_io_lib/fat_table.c:414-440 | appending a free entry gives a longer well-formed chain exactly when its number is below the end marks |
| FatAllocation.AddClusterToChain | src/fat_io_lib/fat_table.c:414-440 | links the new entry behind the chain's last one and ends it there; refuses a chain that runs into a free entry |
| FatChains.WalkEndsExactly | src/fat_io_lib/fat_table.c:414-440 | following links from a cluster ever meets an end or a free entry exactly when they do not close on themselves |
| FatChains.GrowAppends | src/fat_io_lib/fat_write.c:45-76 | growing appends distinct entries that were free, all that were asked for unless the table is full, and touches nothing else |
| FatChains.GrowKeepsOthers | src/fat_io_lib/fat_write.c:45-76 | every other chain reads the same and stays disjoint |
| FatAllocation.AddFreeSpace | src/fat_io_lib/fat_write.c:45-76 | the table grows as stated, success exactly when all clusters were found, and the first one is reported |
| FatChains.GrowThenFreeTail | src/fat_io_lib/fat_write.c:45-76 | freeing what was appended leaves the same entries free as before |
| FatChains.NewChain | src/fat_io_lib/fat_write.c:82-125 | a new file's clusters form a well-formed chain of their own from the first blank entry on, all that were asked for unless the table is full, and nothing else is touched |
| FatAllocation.AllocateFreeSpace | src/fat_io_lib/fat_write.c:82-125 | the table gets just enough clusters for the size, behind the tail or as a new chain; the first cluster of a new chain is reported exactly when it has only one |
| FatAllocation.CountFreeClusters | src/fat_io_lib/fat_table.c:445-478 | counts the entries that are zero as stored, changing nothing |
| FatAllocation.CountIsExact | src/fat_io_lib/fat_table.c:445-478 | that equals the number of entries allocation calls free exactly when none is zero in its low 28 bits only |
| FatReplay.StepKeeps | src/fat_io_lib/fat_table.c:389-440 | each creation, append or free keeps chains well formed, disjoint and leak-free, and reserved entries as they were |
| FatReplay.Perform | src/fat_io_lib/fat_write.c:45-125 | one creation, append (from the tail, or walking there from the start) or free through the buffers is that step on the table |
| FatReplay.Run | src/fat_io_lib/fat_table.c:179-195 | any run of creations, appends and frees followed by a purge leaves its outcome on the disk |
| FatReplay.ReadChain | src/fat_io_lib/fat_table.c:205-256 | following links from the first cluster meets exactly the chain |
| FatNames.EntriesCover | src/fat_io_lib/fat_misc.c:193-201 | just enough records for the name, and within the cache's 20 exactly for 260 bytes or fewer |
| FatNames.FilenameToLfn | src/fat_io_lib/fat_misc.c:207-244 | fills one long-name record byte by byte and nothing around it |
| FatNames.FoldFills | src/fat_io_lib/fat_misc.c:58-91 | reading a name's records in the order they are written fills the cache with its characters from any earlier state |
| FatNames.NameRoundTrip | src/fat_io_lib/fat_misc.c:58-244 | a name split into records comes back exactly when it has at most 260 bytes and no 0xFF |
| FatDirectory.LfnCache.Entry | src/fat_io_lib/fat_misc.c:58-91 | copies a record's 13 characters into its slot, padding as spaces; the first record sets the count |
| FatDirectory.LfnCache.Get | src/fat_io_lib/fat_misc.c:97-108 | terminates and returns the cached name |
| FatListing.SameScans | src/fat_io_lib/fat_misc.c:58-108 | caches that agree on the known bytes list the same when every name is determined by them |
| FatListing.IndependentExactly | src/fat_io_lib/fat_misc.c:58-108 | records list the same from every empty cache exactly when no name is read at an unknown byte before its end or a NUL |
| FatListing.SoundExactly | src/fat_io_lib/fat_misc.c:58-108 | that holds of every part of a directory behind a short record exactly when each name is determined by its own records |
| FatListing.EntryIsFound | src/fat_io_lib/fat_access.c:407-507 | a new entry is listed under its own long name exactly when its short name does not look deleted or unused |
| FatListing.AddingKeepsTheRest | src/fat_io_lib/fat_write.c:266-372 | writing an entry over dead records adds it to the listing and keeps everything else, in order, when the records behind it do not depend on the cache |
| FatListing.AddingStaysSound | src/fat_io_lib/fat_write.c:266-372 | and a directory where each name is determined by its own records stays one |
| FatListing.IncompleteNameChanges | src/fat_io_lib/fat_misc.c:58-108 | it happens: an entry whose first record is missing shows another name once one was added before it |
| FatListing.LookupAfterAdding | src/fat_io_lib/fat_access.c:407-507 | lookups after an addition: the new entry if nothing before it matches, else what was found before |
| FatListing.FittingIsReusable | src/fat_io_lib/fat_write.c:130-262 | a run of dead records the slot finder accepts owns no long-name record of a live entry |
| FatListing.PlaceIsReusable | src/fat_io_lib/fat_write.c:130-262 | whichever way room was found it is reusable, and enough unless the directory grew by too little |
| FatListing.ExtendedListsTheSame | src/fat_io_lib/fat_write.c:228-258 | a new zeroed cluster lists nothing |
| FatDirectory.Directory.Examine | src/fat_io_lib/fat_access.c:433-499 | one record of the scan: a hit exactly when it completes an entry whose name matches |
| FatDirectory.Directory.GetFileEntry | src/fat_io_lib/fat_access.c:407-507 | the record of the first entry of the listing that matches; not found exactly when none does |
| FatDirectory.Directory.CountRoom | src/fat_io_lib/fat_write.c:151-225 | one record of the search: stops exactly where enough dead records end, remembering where they start |
| FatDirectory.Directory.FindFreeDirOffset | src/fat_io_lib/fat_write.c:130-262 | first fit in the directory, else the dead tail and one more cluster; failure exactly when neither is to be had |
| FatDirectory.Directory.RotatingSum | src/fat_io_lib/fat_write.c:302-305 | the short-name checksum loop |
| FatDirectory.Directory.WriteEntry | src/fat_io_lib/fat_write.c:307-371 | writes the records over as many sectors as they take; success exactly when the directory does not end first |
| FatDirectory.Directory.AddFileEntry | src/fat_io_lib/fat_write.c:266-372 | the new set is placed over reusable records of the directory, extended at most once; success exactly as stated; a failure lists nothing new |
| FatDirectory.Directory.AddThenLookUp | src/fat_io_lib/fat_write.c:266-372 | adding and looking up: the new entry is found by a name it answers to unless an entry before it in the directory matches, and then that one; every other lookup answers as before |
| FatFile.FlFile.constructor | src/fat_io_lib/fat_cache.c:42-55 | an empty cache and no remembered lookup |
| FatFile.FlFile.CacheGet | src/fat_io_lib/fat_cache.c:59-72 | a hit exactly when the slot holds this index, and then the chain's next cluster |
| FatFile.FlFile.CacheSet | src/fat_io_lib/fat_cache.c:76-91 | the slot is taken over; everything remembered is still true of the chain |
| FatFile.FlFile.Locate | src/fat_io_lib/fat_filelib.c:564-607 | shortcut, cache and walk together give the same cluster as a plain walk of the chain, and the last lookup moves there |
| FatFile.FlFile.ReadSectors | src/fat_io_lib/fat_filelib.c:548-622 | the file's sectors from the offset, as many as asked or up to the end of the cluster; none exactly at the end of the chain |
| FatFile.FlFile.ReadPiece | src/fat_io_lib/fat_filelib.c:1049-1106 | one turn of the loop copies the file's next bytes, directly or through the sector buffer |
| FatFile.FlFile.FRead | src/fat_io_lib/fat_filelib.c:1011-1109 | the bytes at the position, as many as the stated 32-bit arithmetic on the signed count gives, and the position moves by them |
| FatFile.FlFile.FSeek | src/fat_io_lib/fat_filelib.c:1113-1178 | the new position and result for each origin; no byte of the file changes |
| FatFile.ReadIsLimited | src/fat_io_lib/fat_filelib.c:1011-1109 | for positive counts a read stops at the end of the file exactly when position plus count fits 32 bits, or the chain ends there too |
| FatFile.NegativeReads | src/fat_io_lib/fat_filelib.c:1011-1109 | a negative count reads nothing exactly unless it wraps past the end of a file with less than 2^31 bytes to go |
| FatFile.SeekIsClamped | src/fat_io_lib/fat_filelib.c:1113-1178 | seeks go where told, cut off at both ends, exactly when they stay within 32 bits or their remainder is cut off all the same |
| FatFileRuns.Open | src/fat_io_lib/fat_filelib.c:324-392 | a handle just opened starts at 0 and knows nothing wrong about the chain |
| FatFileRuns.Run | src/fat_io_lib/fat_filelib.c:1011-1178 | any run of reads and non-overflowing seeks returns the bytes and positions of a flat file |
| FatFileRuns.ResolveSector | src/fat_io_lib/fat_access.c:220-269 | the disk sector of a chain's sector; none past its end, or past the FAT16 root directory's |

## Left out

Modelled more narrowly than the code:

- Volume.Truncate: not erasing as far as 2^32 clusters or more is a precondition; there the walk of erase_range leaves the chain, after the chain was resized. Sizes are below 2^64. Device failures, times and the flush of the bitmap are not part of it. A node nobody references and that has a parent is a bug to the code and a precondition here.
- Replay.Run: stops before the first operation that meets the lone backward case or asks for 2^32 clusters or more; the nodes are referenced.
- Replay.Perform: neither of these, as a precondition.
- Replay.RunRoomy: excludes more than the failing case, by what flat files show.
- FileIo.GenericPwrite: the lone backward case for the final size is a precondition, as are sizes of 2^32 clusters or more; what a write does on the volume that such a growth leaves is not modelled.
- FileIo.FlatTruncated: the lone backward case is a precondition; `Volume.Truncate` says what happens there.
- FileIo.GenericPread: access times are not modelled.
- Extents.ImageLocation.GetImageLocation: starts from an empty table, as in a process that asks once; memory always suffices.
- Extents.ExtractIsFaithful: clusters are whole disk sectors, as the format has them, the heap starts on one, and there are fewer than 2^32 image sectors.
- EntrySets.CommitEntry: the name hash and the clock are parameters.
- EntrySets.FlushNode: reading the entries back and writing them always succeeds.
- EntrySets.RenameEntry: the name hash is a parameter; reading and writing always succeed; erasing the old entries is not part of it.
- DirectorySlots.CheckSlot: reading the entries always succeeds.
- DirectorySlots.FindSlot: what is in use on the disk is a parameter, memory and device always succeed, and the extension itself is the truncate of Volume.
- NodeTree.Forest.Rename: looking the two paths up is left to the caller; the results of erasing, shrinking, cleaning up, finding a slot, writing and flushing are parameters. Reference counts and the cached flag are not modelled.
- TimeCodec.UnixToExfat: seconds more than 65536 years past 1980 are a precondition, as the year variable has 16 bits.
- FatTable.FatFs.ReadSector: one sector per buffer, the default of FAT_BUFFER_SECTORS; any number of buffers from one on. Wider windows can overlap.
- FatTable.FatFs.FindNextCluster: cluster numbers past the table are excluded; the code would read whatever sector follows the FAT.
- FatTable.FatFs.SetCluster: likewise, and a write function is attached.
- FatChains.TrailFollowsLinks: links that can be reached from the start do not lead past the table.
- FatAllocation.FreeClusterChain: likewise (`FatChains.AllEntriesClosed` says for which tables that holds of every start).
- FatAllocation.FreeAnyChain: likewise, for all entries.
- FatAllocation.FindBlankCluster: on a medium that may fail, nothing is said of a failure to find one.
- FatAllocation.AddClusterToChain: the chain does not run into a cycle, where the code does not terminate (`FatChains.WalkEndsExactly`).
- FatAllocation.AddFreeSpace: on a medium that may fail, nothing is said of the table.
- FatAllocation.AllocateFreeSpace: likewise; the cluster size is a parameter.
- FatReplay.Perform: the medium does not fail.
- FatReplay.Run: the medium does not fail, and blank entries are data clusters (`FatChains.Append` is exact about that); a creation asks for one cluster, as both callers do.
- FatDirectory.Directory.GetFileEntry: the directory is the sequence of its sectors in chain order, which `FatFileRuns.ResolveSector` relates to the disk; its medium does not fail; comparing names is a parameter, and so names are any bytes.
- FatDirectory.Directory.FindFreeDirOffset: whether a cluster can be had for the directory is a parameter, and the new cluster's zeroed sectors join the directory's own; on the FAT that growth is the `Append` step of `FatReplay.Step`. A full FAT16 root directory cannot be told apart from one that may not grow.
- FatDirectory.Directory.AddFileEntry: one new cluster at most, as in the code; the update of times in the short record is compiled out.
- FatDirectory.Directory.AddThenLookUp: for directories where each long name is determined by its own records (`FatListing.SoundExactly`) and short names that do not look deleted or unused (`FatListing.EntryIsFound`).
- FatFile.FlFile.FRead: size times length is one count, within 32 signed bits; the buffer has room for the count as it is limited; the medium does not fail; the FAT does not change while the handle is open; the chain covers the file's length.
- FatFileRuns.Run: reads of a negative count or one whose position plus count passes 2^32 are excluded; `FatFile.ReadIsLimited` and `FatFile.NegativeReads` say what those do.
- FatFileRuns.Open: finding the directory entry, the purge of the buffers before it and the table of handles are not part of it.

Not modelled:

- Opening, seeking and caching of devices, boot-sector reading and option parsing; logging; interactive repair; argument parsing, device probing and printing of the tool itself.
- Reading a directory into nodes, the upper-case table, labels, name hashes, path splitting and comparing.
- Flushing the bitmap and the tree; reference counts; unlinked files' cleanup.
- Writing through file handles (`fl_fwrite`): seeking drops a dirty buffer, so nothing can be promised of what is read afterwards.
- Short-name generation, FAT formatting tables, directory listing for users, and removal of FAT files.
- The FAT and the cluster heap lie in separate arrays, so writes to one never meet the other; bitmap words have 64 bits.
- Byte order and structure packing, except inside directory entries, FAT entries and timestamps, where they are explicit.
