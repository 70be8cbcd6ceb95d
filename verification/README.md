# Verified models of four components

This project models four components of the repository in Dafny and proves what they promise.

- **FatFs** (`Fat*.dfy`): the FAT12/16/32 engine. A volume is a sequence of sectors behind a write-back window of one
  sector (`FatVolume`); the table is decoded from its packed bytes (`FatCodec`) and seen as a set of disjoint chains
  (`FatChains`, `FatAlloc`). An open file with its own dirty sector buffer refines a plain byte sequence with a cursor
  over every run of reads, writes, seeks and truncations (`FatFileModel`, `FatFileState`, `FatFile`, `FatRead`,
  `FatWrite`, `FatSeek`, `FatTruncate`, `FatRun`). The geometry that the formatter chooses meets the mount checks
  (`FatFormat`), and the FATs it writes are a table in order, from which every run can begin (`FatFresh`, `FatRoot`).
  Long names are written and read back (`FatLongName`); searching and registering names is described on the sequence of
  entries (`FatDirectory`) and refined by a directory object that goes over sectors and clusters through the window and
  stretches its chain (`FatDirModel`, `FatDir`). What these descriptions amount to is stated again without them: the
  table as the digits of one number (`FatDigits`), the place of every byte and entry on the medium (`FatPlaces`), the
  requests that are formatted and their layouts (`FatChoice`), and what reading and searching a directory find, by the
  bytes of its entries (`FatReadDir`, `FatFindDir`).
- **Tarjan's algorithm** (`Digraph.dfy`, `TarjanInvariant.dfy`, `StronglyConnected.dfy`): the recursive search with its
  stack and maps, over every finite graph.
- **The Yay0 codec and the font pipeline** (`MaskBits.dfy`, `Yay0.dfy`, `Yay0Compress.dfy`, `Font.dfy`): from the pixmap
  through the tiled 2-bit image, the font file and its compression, and back to the bitmap.
- **Ed25519** (`Scalar*.dfy`, `Field*.dfy`, `Recoding.dfy`, `Groups.dfy`, `Words.dfy`, `Sha512*.dfy`, `Ed25519.dfy`): limb arithmetic
  modulo l and modulo 2^255 - 19 with its bounds, the signed-digit recodings and the scalar multiplications over an
  abstract group, the streaming hash with its compression function, and signing and verifying.

`Arith.dfy`, `Modular.dfy`, `Binary.dfy`, `Bytes.dfy` and `Options.dfy` hold what several of them need.

Five places where the code does less than one might expect are stated as they are. The formatter can produce a volume
without any cluster, which the mount code then refuses: `FatFormat` gives such a volume and the exact condition on the
request. Mounting accepts two FATs whose doubled size wraps around at 2^32, and then lays them over the data area:
`FatFormat` gives such a boot record and the exact condition. The free-cluster scan counts the two reserved entries of
16- and 32-bit tables if they are zero: `FatAlloc` states the surplus and `FatFresh` gives such a table. A long name with
U+FFFF is read back as written only if that unit ends it in a full piece: `FatLongName` gives the exact condition, and
what any other name is read as. A short name can be taken for the owner of pieces that were left in front of it:
`FatDirectory` gives such a directory and the exact condition.

`dafny verify dfyconfig.toml` checks the whole project.

## Model

| member | source | states |
|---|---|---|
| FatVolume.Volume.SyncWindow | Externals/FatFs/ff.c:1025-1044 | The medium with the dirty window laid over it reads the same before and after; when it succeeds the window is clean, when it fails nothing was written; outside the second FAT only the window sector is touched, and once no write has ever failed the second FAT equals the first on every sector that is not dirty. |
| FatVolume.Volume.MoveWindow | Externals/FatFs/ff.c:1047-1067 | For every sector outside the second FAT (FAT, directory or data): a successful move leaves in the window exactly what the volume showed at that sector, dirty or not; what the volume shows never changes, whatever fails. For sectors before the data area, only FAT sectors and a dirty window reach the medium. |
| FatVolume.FlushedImage | Externals/FatFs/ff.c:1030-1042 | Writing the dirty window back is invisible in the overlay of medium and window; with two FATs it is also mirror-preserving, or the failure is on record. |
| FatVolume.GetFat | Externals/FatFs/ff.c:1131-1199 | Reads the entry of the table as the overlay shows it, for 12-, 16- and 32-bit tables, entries across two sectors included; 1 for every cluster out of range (a stored value of 1 gives 1 as well); the table and everything else stay as they are. |
| FatVolume.PutFat | Externals/FatFs/ff.c:1209-1258 | On success the table is the old one with that one entry replaced by the value cut to 12, 16 or 28 bits; every other entry, and everything outside the FATs, is unchanged; after a disk error no other entry has changed. |
| FatVolume.OutcomeTable | Externals/FatFs/ff.c:1209-1258 | The bytes put_fat stores amount to replacing one entry of the decoded table. |
| FatCodec.DecodeStoredSame | Externals/FatFs/ff.c:1145-1165 | Reading an entry after storing it gives the value truncated to the width of the entry. |
| FatCodec.DecodeStoredOther | Externals/FatFs/ff.c:1222-1254 | Storing an entry leaves every other entry readable as before, although 12-bit entries share a byte. |
| FatCodec.TopNibbleKept | Externals/FatFs/ff.c:1243-1254 | Storing a 32-bit entry keeps the four reserved top bits of what was there. |
| FatCodec.TableStored | Externals/FatFs/ff.c:1209-1258 | The whole decoded table after a store is the old table with one entry replaced. |
| FatDigits.TableIsNumber | Externals/FatFs/ff.c:1131-1199 | The bytes of the first FAT, read as one number with the least significant byte first, have the entries of the table as digits: of 12, 16 or 32 bits, the value being the low 12, 16 or 28 of them. |
| FatChains.ChainsDisjoint | Externals/FatFs/ff.c:1556-1574 | Two whole chains of a well-formed table that share a cluster anywhere are the same chain. |
| FatChains.WholeChain | Externals/FatFs/ff.c:1424-1456 | Every cluster in use lies on a whole chain with a first cluster that no entry points to. |
| FatChains.StartChain | Externals/FatFs/ff.c:1556-1574 | Taking a free cluster for a new chain adds exactly the chain of that one cluster. |
| FatChains.StretchChain | Externals/FatFs/ff.c:1570-1573 | Linking a free cluster behind the last cluster of a chain replaces that chain by itself plus the cluster, and touches no other chain. |
| FatChains.RemoveWhole | Externals/FatFs/ff.c:1424-1456 | Freeing a chain from its first cluster removes exactly that chain. |
| FatChains.RemoveSuffix | Externals/FatFs/ff.c:1417-1456 | Cutting behind a cluster leaves the chain up to it, properly ended, and every other chain as it was. |
| FatChains.RemovedPath | Externals/FatFs/ff.c:1424-1456 | Started at a path, the freeing loop frees exactly the clusters of the path. |
| FatAlloc.FindFree | Externals/FatFs/ff.c:1556-1569 | From any starting hint the wrap-around scan finds the free cluster that comes first behind it in cyclic order, and answers 0 only if no cluster at all is free. |
| FatAlloc.FindBehind | Externals/FatFs/ff.c:1544-1569 | The cluster right behind the chain is taken if it is free, else the first free one behind the cluster taken last; 0 is answered only if no cluster is free. |
| FatAlloc.CreateChain | Externals/FatFs/ff.c:1494-1585 | Which cluster is taken, and which table, hint and free count every answer (cluster, 0, 1, disk error) stands for; a right free count stays right, and where it is right the answer 0 means that no cluster of the table is free. A disk error is answered only where a transfer has failed. |
| FatAlloc.ExhaustedIsFull | Externals/FatFs/ff.c:1494-1585 | Answer 0, given because the recorded number is 0 or because a full scan found nothing, means that no cluster is free whenever the recorded number is unknown or right. |
| FatAlloc.CreateEffect | Externals/FatFs/ff.c:1494-1585 | On a well-formed table a successful allocation appends exactly one formerly free cluster to exactly one chain, or starts one; otherwise the table is unchanged. |
| FatAlloc.FreeLoop | Externals/FatFs/ff.c:1424-1456 | The loop ends on every table, cyclic and cross-linked ones included, with the number of nonzero entries as its measure, and leaves the table that the specification of removal describes. |
| FatAlloc.RemoveChain | Externals/FatFs/ff.c:1399-1485 | Range errors leave the table alone; otherwise the predecessor is ended first and the loop frees what follows; a known free count stays exact. |
| FatAlloc.RemoveWholeEffect | Externals/FatFs/ff.c:1399-1485 | Removing a whole chain of a well-formed table frees exactly its clusters and no other. |
| FatAlloc.RemoveSuffixEffect | Externals/FatFs/ff.c:1399-1485 | Removing behind a predecessor frees exactly the suffix and re-ends the prefix; all other chains stay. |
| FatAlloc.ClearedCount | Externals/FatFs/ff.c:1430-1436 | Freeing a path raises the number of free clusters by its length. |
| FatAlloc.CountFree12 | Externals/FatFs/ff.c:4774-4781 | The scan of a 12-bit table counts exactly the free clusters. |
| FatAlloc.CountFreeFlat | Externals/FatFs/ff.c:4804-4821 | The scan of a 16- or 32-bit table counts every zero entry, the two reserved ones included. |
| FatAlloc.GetFree | Externals/FatFs/ff.c:4764-4832 | The answer is the recorded number, or the scan; it is the number of free clusters exactly when the reserved entries are not zero (the surplus is given otherwise). |
| FatFresh.ZeroReservedMiscounts | Externals/FatFs/ff.c:4804-4821 | On the smallest FAT16 volume that mounting accepts, a table in order but for a zero entry 0, on which f_getfree records two free clusters where there is one. |
| FatAlloc.ZerosTotal | Externals/FatFs/ff.c:4804-4821 | Exactly how far the flat scan exceeds the number of free clusters. |
| FatAlloc.RunKeeps | Externals/FatFs/ff.c:1399-1585 | Every run of allocations, removals and free-cluster queries without a disk error keeps the chains disjoint, acyclic and properly ended; if no reserved entry is zero it also keeps the recorded number of free clusters unknown or exactly right. |
| FatAlloc.CallKeeps | Externals/FatFs/ff.c:1399-1585 | One allocation, removal or query keeps the table well formed, and a right record right if no reserved entry is zero. |
| FatAlloc.CountKeeps | Externals/FatFs/ff.c:4764-4832 | A free-cluster query keeps a right record right if and only if the number is known, or no reserved entry is zero, or all clusters are free so that the surplus makes the number unknown. |
| FatFileState.FileStepTrans | Externals/FatFs/ff.c:3850-4062 | Disturbing only the FATs and the clusters of one file is transitive over calls. |
| FatFileState.CoreFlush | Externals/FatFs/ff.c:3919-3922 | Writing the dirty file buffer back does not change what the file contains. |
| FatFileState.BufferedSecs | Externals/FatFs/ff.c:4054-4055 | Changing bytes in the buffer changes exactly those bytes of the file. |
| FatFile.Flush | Externals/FatFs/ff.c:3919-3922 | The content of the file and the table are the same before and after; on success the buffer is clean. |
| FatFile.LoadBuffer | Externals/FatFs/ff.c:3924-3927 | The buffer shows the sector asked for, and the content of the file is the same. |
| FatFile.CreateForFile | Externals/FatFs/ff.c:3978-3999 | Stretching the file takes one cluster that no other chain uses; content and all other chains are kept. |
| FatFile.StretchTo | Externals/FatFs/ff.c:3978-3999 | The new or following cluster is the next element of the chain; 0 only at the end of the chain of a volume that is exhausted, which, where the recorded number is right, means that no cluster is free; a right number stays right. |
| FatRead.Read | Externals/FatFs/ff.c:3850-3940 | Delivers exactly the bytes of the file from the pointer on, cut at its end, whether they come from the buffer, by direct transfer, or both; the content does not change. |
| FatRead.ReadDirect | Externals/FatFs/ff.c:3896-3915 | A direct transfer is patched with the dirty buffer when that lies inside it, so the bytes are those of the file. |
| FatRead.EnterForRead | Externals/FatFs/ff.c:3876-3892 | On a cluster boundary the pointer moves to the cluster of the next byte, by the invariant that the current one belongs to the byte before. |
| FatWrite.Write | Externals/FatFs/ff.c:3950-4062 | The content is the old one with the written part laid over it at the pointer; all bytes up to the size limit are written unless the volume is exhausted, and then the pointer has reached the end of the file and of its last cluster; all other chains and their data are kept, and a right free count stays right. |
| FatWrite.WriteDirect | Externals/FatFs/ff.c:4011-4032 | A direct transfer puts its sectors into the file and refreshes the buffer if it shows one of them. |
| FatWrite.EnterForWrite | Externals/FatFs/ff.c:3978-3999 | On a cluster boundary the file gets or already has the cluster of the next byte; it gets none only if the volume is exhausted and the pointer is at the end of the last cluster. |
| FatSeek.Seek | Externals/FatFs/ff.c:4449-4518 | The pointer goes to the offset, by the short cut from the current cluster or from the start; reading stops at the end; in write mode it stops short only on an exhausted volume, at the end of the last cluster; existing bytes stay, and a right free count stays right. |
| FatSeek.Walk | Externals/FatFs/ff.c:4473-4501 | Following the chain cluster by cluster ends at the cluster of the offset, or at the end of the chain of an exhausted volume. |
| FatSeek.Place | Externals/FatFs/ff.c:4449-4506 | The cluster under the pointer is the element of the chain at the index that belongs to the byte before it, and the sector inside a cluster is that of the byte at the pointer. |
| FatTruncate.Truncate | Externals/FatFs/ff.c:4842-4883 | The file keeps exactly its bytes before the pointer, and exactly the clusters they need. |
| FatTruncate.CutForFile | Externals/FatFs/ff.c:4855-4868 | Cutting the chain at the pointer keeps every byte before it and every other chain. |
| FatPlaces.ClustersInOrder | Externals/FatFs/ff.c:1114-1122 | Cluster 2 begins at the data base, every next cluster one cluster size further on; a number out of range has no sector. |
| FatPlaces.ByteOnDisk | Externals/FatFs/ff.c:3889-3934 | Where byte p of a file stands on the medium, as arithmetic on p, the chain, the cluster size and the data base. |
| FatPlaces.ContiguousByte | Externals/FatFs/ff.c:3889-3934 | The bytes of a file in one piece stand one behind the other from the first sector of its first cluster on. |
| FatPlaces.ClusterEntry | Externals/FatFs/ff.c:1666-1705 | Where entry i of a directory with clusters stands on the medium, as arithmetic on i, the chain, the cluster size and the data base. |
| FatPlaces.FixedEntry | Externals/FatFs/ff.c:1684-1703 | Where entry i of a root directory with sectors of its own stands. |
| FatRun.Apply | Externals/FatFs/ff.c:3850-4883 | One successful call is a step of a plain byte sequence with a cursor: a write stores everything unless it ends at the size limit, or at the end of the file and of a cluster with the volume exhausted; an extending seek stops short only then, too. It succeeds only if the file was opened for it, and on a medium that never fails it does. |
| FatRun.Run | Externals/FatFs/ff.c:3850-4883 | Every run of successful reads, writes, seeks and truncations on an open file is a run of a plain byte sequence with a cursor, with short writes and seeks only where space or size ends; it leaves all other chains and their data alone and keeps a right free count right at every step. On a medium that never fails every run of calls for which the file was opened succeeds. |
| FatRun.InsideIsComplete | Externals/FatFs/ff.c:3978-3999 | A write that lies inside the file is always complete, whatever the state of the volume. |
| FatRun.ShortMeansFull | Externals/FatFs/ff.c:3978-3999 | Where the recorded number of free clusters is right, a write that stops short below the size limit means that no cluster of the table is free. |
| FatRun.ReadBack | Externals/FatFs/ff.c:3850-4062 | What was written is read back after seeking to where it was written. |
| FatFormat.MkfsGeometry | Externals/FatFs/ff.c:6101-6173 | The retry loop ends, and arrives at the geometry of its specification. |
| FatFormat.Round | Externals/FatFs/ff.c:6145-6170 | Every retry fixes the cluster size or moves on to FAT32, never back. |
| FatFormat.ChosenSound | Externals/FatFs/ff.c:6101-6173 | Every geometry that reaches the break has a FAT large enough for its clusters, a consistent sub-type, fields that fit the boot record, and lies inside the volume, although all sums are taken modulo 2^32. |
| FatChoice.ChosenExactly | Externals/FatFs/ff.c:6101-6173 | A request is formatted if and only if a layout fits: of the cluster size asked for; for FAT32 of the automatic size or its half; for FAT12 and FAT16 of the automatic size, its double, or FAT32 where that is allowed. It gets the first one, whose sizes are given by arithmetic alone: FATs for the whole volume, the system area up to the next erase block, the clusters behind it. |
| FatChoice.LayoutUnique | Externals/FatFs/ff.c:6125-6144 | These conditions leave one layout only. |
| FatChoice.LargeAlways | Externals/FatFs/ff.c:6105-6150 | From 64 MiB on, FAT32 with the automatic cluster size never fails. |
| FatChoice.Image512 | Externals/FatFs/ff.c:6145-6150 | An image of 512 MiB: sixteen sectors leave too few clusters, so that it gets eight. |
| FatChoice.MountedExactly | Externals/FatFs/ff.c:3460-3509 | Where the system area does not wrap around, a boot record is mounted if and only if it has one or two FATs with an entry for each cluster and two more, at least one cluster of a power of two of sectors, and a root directory of whole sectors unless it is FAT32; and the fields that are derived. |
| FatFormat.AlignedSize | Externals/FatFs/ff.c:6131-6142 | Moving or expanding the FATs, with its correction for an odd gap and two FATs, shifts the data area by exactly the gap to the erase block. |
| FatFormat.SoundMounts | Externals/FatFs/ff.c:3460-3509 | The mount checks derive from the boot record the same sub-type, cluster count, sizes and bases. |
| FatFormat.FormatterMountAgree | Externals/FatFs/ff.c:6101-6173 | Every geometry that is chosen is mounted with the same sub-type and cluster count if and only if the request leaves room for one cluster behind its aligned system area, at the cluster size asked for or, if that is automatic, at the first or the doubled automatic size; its data area begins on an erase block. |
| FatFormat.MountedIsValid | Externals/FatFs/ff.c:3460-3509 | A volume inside the 32-bit sector numbers that mounting accepts has the geometry that all FAT and file operations rely on if and only if the sectors of its system area add up below 2^32. |
| FatFormat.MountedNotValid | Externals/FatFs/ff.c:3460-3509 | A boot record whose two FATs wrap around in size: it is mounted, with FATs that lie over the data area and leave the volume. |
| FatFormat.FormattedIsValid | Externals/FatFs/ff.c:6101-6173 | What the formatter makes, with room for a cluster, is mounted with a geometry that all FAT and file operations rely on. |
| FatFormat.FormatterMountDiffer | Externals/FatFs/ff.c:6144-6170 | A volume of 128 sectors with an erase block of 128 is formatted with no cluster at all, and is then refused by the mount checks. |
| FatFormat.SmallBlocksMount | Externals/FatFs/ff.c:6144-6170 | With erase blocks of at most sixteen sectors every formatted volume is mounted. |
| FatFresh.InitArea | Externals/FatFs/ff.c:6217-6246 | Writing the FATs and the root directory through a buffer of any size, sector group by sector group, leaves each FAT with its first sector and zeros behind it, and a root directory of zeros. |
| FatFresh.FreshFat | Externals/FatFs/ff.c:6217-6235 | The table decoded from what is written, over packed 12-bit entries as well: two reserved entries that are not zero, on FAT32 the ended chain of the root directory, and free clusters. |
| FatFresh.FormattedVolume | Externals/FatFs/ff.c:6101-6246 | Every volume formatted with room for a cluster is, once mounted, a valid volume with equal FATs whose table has its chains in order, and as many free clusters as it has clusters, less the root directory on FAT32. |
| FatFresh.FreshRun | Externals/FatFs/ff.c:6101-6246 | From a formatted volume on, every run of allocations, removals and free-cluster queries keeps the chains in order and the recorded number unknown or right, with nothing assumed about the table. |
| FatFresh.FreshOpens | Externals/FatFs/ff.c:3779-3800 | On such a volume a new file can be opened with a state from which every run of file calls may begin. |
| FatRoot.FormattedRoot | Externals/FatFs/ff.c:6237-6246 | On every volume formatted with room for a cluster, the root directory is a table of entries never used only, so that registering names in it may begin. |
| FatFile.Open | Externals/FatFs/ff.c:3779-3800 | Opening sets up the file state: with the chain and the size of its directory entry, the pointer is at the start, and all invariants of an open file hold. |
| FatFile.OpenedCore | Externals/FatFs/ff.c:3779-3800 | For every chain of the table and every size within it, the empty file included, the state of a newly opened file satisfies all invariants of an open file and shows that many bytes. |
| FatDirectory.Look | Externals/FatFs/ff.c:2395-2420 | One step of the search for a name: the state of the long-name match, and where it ends. |
| FatFindDir.FindIsFirst | Externals/FatFs/ff.c:2353-2432 | By the bytes of the entries: the search ends at the first short entry that stands behind all pieces of the name looked for, counting down with its checksum, or that has the short name looked for, and never behind an entry that was never used. |
| FatFindDir.FindBlockStart | Externals/FatFs/ff.c:2390-2432 | What it delivers as the beginning of the long name is the last topmost piece with nothing but pieces behind it. |
| FatFindDir.FreeIsUnnamed | Externals/FatFs/ff.c:1788-1800 | An entry is free to be allocated if and only if no attribute makes it a name or a piece of one. |
| FatDirectory.FindBlock | Externals/FatFs/ff.c:2390-2432 | A search that comes to the entries of a name ends at their short entry if and only if the name that is read from them agrees up to case, or the short name is the one looked for; else it goes on behind them as if from new. |
| FatDirectory.RegisteredFind | Externals/FatFs/ff.c:2434-2533 | What registering a long name does to every search, for every name and short name: one that ended before the new entries still does; of the others exactly those that the new name answers end at its short entry; all the rest are answered as before. Nothing in use comes to lie behind the first entry never used. |
| FatDirectory.RegisteredIsFound | Externals/FatFs/ff.c:2434-2533 | A name that was not found is found at its new short entry, with its long name beginning at the first new entry. |
| FatDirectory.RegisteredShortFind | Externals/FatFs/ff.c:2434-2533 | The same for a short name alone, with one exception: pieces left without their short entry in front of the new one, with its checksum, are taken for its long name. |
| FatDirectory.OrphanTaken | Externals/FatFs/ff.c:2390-2432 | Such a directory: a search for "a", which looks for long names only, finds nothing, and after the short name A has been registered it ends there. |
| FatDirectory.RegisteredDistinct | Externals/FatFs/ff.c:2479-2491 | Short names stay distinct when the new one was not found before; the search need not look at long names. |
| FatDir.Clear | Externals/FatFs/ff.c:1627-1656 | The cluster reads as zeros afterwards; the FATs, their decoded table and all other sectors read as before. |
| FatDir.Dir.Sdi | Externals/FatFs/ff.c:1666-1705 | The object stands at the entry of the offset, in a root directory of its own or in a chain of clusters of any length; inside the table only a disk error prevents it. |
| FatDir.Dir.Next | Externals/FatFs/ff.c:1714-1766 | The object goes on to the next entry over sector and cluster boundaries; at the end it answers so, or stretches the table by a cluster of entries never used; it is denied only on an exhausted volume. All other chains and sectors are kept. |
| FatDir.Dir.Stretch | Externals/FatFs/ff.c:1741-1757 | The chain of the directory grows by a cluster no chain uses, which is cleared; the table grows by entries never used, and the rest of the volume is kept. |
| FatDir.Dir.Find | Externals/FatFs/ff.c:2353-2432 | The search through the window, over sectors and clusters, answers exactly as the search over the sequence of entries; the volume reads as before. |
| FatDir.Dir.Alloc | Externals/FatFs/ff.c:1775-1809 | The object stands at the last of n free entries in a row, the first such row of the table, with an entry in use before it; denied only if there is no such row and the table cannot grow. |
| FatDir.Dir.Put | Externals/FatFs/ff.c:2500-2526 | Storing an entry through the window replaces exactly that entry of the table, and nothing else on the volume. |
| FatDir.Dir.Number | Externals/FatFs/ff.c:2479-2491 | The first of up to 99 numbered short names that no entry has. |
| FatDir.Dir.Register | Externals/FatFs/ff.c:2434-2533 | On success the table, stretched where needed, has a row of free entries replaced by the pieces of the long name, top piece first, with the checksum of the short name, and the short entry; every other entry, all other chains and all sectors outside the directory are kept. The short name is unused if it was numbered. Denied only if 99 numbers are taken, or no row of free entries is to be had. A disk error is answered only where a transfer has failed. |
| FatLongName.PutLfn | Externals/FatFs/ff.c:1928-1953 | For every name of nonzero units: an entry holds thirteen units of the name, the terminator and the filler, a U+FFFF of the name being taken for the filler from there on; the last-entry flag goes to every piece that is filled up and to the one the name ends in. |
| FatLongName.SumSfn | Externals/FatFs/ff.c:2022-2033 | The checksum of the short name, rotated and added byte by byte. |
| FatLongName.SumRotates | Externals/FatFs/ff.c:2022-2033 | One step of the checksum on eight bits: rotation to the right by one, and the addition of the next byte. |
| FatLongName.UnitPlaces | Externals/FatFs/ff.c:1928-1953 | The thirteen units stand in order in the bytes of an entry and take all but the six that are used otherwise. |
| FatLongName.RegisterLfn | Externals/FatFs/ff.c:2493-2508 | The entries of a name: ordinals counting down to 1, the checksum of the short name in each, then the short entry as first written. |
| FatLongName.PickLfn | Externals/FatFs/ff.c:1890-1922 | What reading one entry does to the buffer, on every entry, malformed ones included. |
| FatLongName.DirRead | Externals/FatFs/ff.c:2275-2345 | What reading a directory finds, on every sequence of entries. |
| FatReadDir.ReadDelivers | Externals/FatFs/ff.c:2311-2318 | By the bytes of the entries: reading delivers the first entry that is neither deleted nor a dot entry, and whose attribute is neither that of a label nor that of a piece, unless an entry never used comes before it. |
| FatReadDir.ReadBlock | Externals/FatFs/ff.c:2311-2334 | It delivers a long name that begins at b if and only if all entries from b on are readable pieces that count down from the topmost one to 1 with the checksum of the short entry. |
| FatReadDir.PickReadable | Externals/FatFs/ff.c:1890-1922 | Which pieces are readable: no cluster, units up to a terminator and filler behind it, and room in the buffer. |
| FatLongName.PickPiece | Externals/FatFs/ff.c:1890-1922 | Reading a piece puts its units and, for the top piece, the terminator in place. |
| FatLongName.NameRoundTrip | Externals/FatFs/ff.c:2311-2329 | For every name of 1 to 255 nonzero units, whatever attributes, times and size its short entry has by then, and whatever precedes its entries in the directory: reading them accepts the countdown and the checksum and rebuilds exactly that name if and only if every U+FFFF belongs to a run that ends the name and its last, full piece. |
| FatLongName.ReadsAs | Externals/FatFs/ff.c:2311-2329 | What any other name is read as: a U+FFFF ends the name and fills up the piece it stands in, and the pieces written before that one are passed over. |
| FatLongName.NotRead | Externals/FatFs/ff.c:2311-2329 | If the first U+FFFF stands in the twentieth piece, reading runs out of the buffer and the file is found without a long name. |
| FatLongName.CmpLfn | Externals/FatFs/ff.c:1854-1882 | The comparison of one entry with the buffer, on every buffer; the terminator is never looked for behind the buffer. |
| FatLongName.AllPiecesMatch | Externals/FatFs/ff.c:1854-1882 | A name in the buffer matches all entries written for a stored name if and only if it agrees up to case, with the same length, with the name that is read from them and that takes all of them; for names that are read back this is the stored name itself. |
| FatLongName.FillerIsNoName | Externals/FatFs/ff.c:1940-1951 | The entries that are written for the name of the one unit U+FFFF are read back as thirteen of them. |
| StronglyConnected.Tarjan.StronglyConnectedComponents | Tools/find-includes-cycles.py:17-68 | For every finite graph, successors without a key included, the components partition the visited nodes, each is a class of mutual reachability, and none reaches a component emitted later. |
| StronglyConnected.Tarjan.Strongconnect | Tools/find-includes-cycles.py:31-62 | A recursive call visits the node, keeps the invariant of the search and the order of the result, and connects the node to what is left on the stack. |
| StronglyConnected.Tarjan.PopComponent | Tools/find-includes-cycles.py:54-60 | Popping down to the root yields the segment of the stack above and including it, newest first. |
| StronglyConnected.EmitSegment | Tools/find-includes-cycles.py:53-62 | The segment popped at a root is a whole class of mutual reachability, reaching only nodes already emitted besides itself. |
| StronglyConnected.SameComponentIffMutual | Tools/find-includes-cycles.py:17-68 | Two visited nodes share a component if and only if each reaches the other. |
| StronglyConnected.ReachableComesFirst | Tools/find-includes-cycles.py:17-68 | A component is emitted only after every component that can be reached from it. |
| StronglyConnected.OccursOnce | Tools/find-includes-cycles.py:17-68 | Every visited node occurs in exactly one place of the result. |
| TarjanInvariant.SegmentIsClass | Tools/find-includes-cycles.py:53-62 | When lowlink equals index, the nodes above on the stack are exactly those mutually reachable with the root. |
| TarjanInvariant.ScanRecursed | Tools/find-includes-cycles.py:44-47 | After a recursive call the lowlink is the smallest index reached by a back edge from the subtree so far. |
| TarjanInvariant.FinishInner | Tools/find-includes-cycles.py:43-53 | A node whose lowlink is smaller than its index reaches a node still being visited, and stays on the stack. |
| TarjanInvariant.FinishRoot | Tools/find-includes-cycles.py:53-62 | Emitting a component keeps the invariant of the search. |
| MaskBits.MaskWriter.PushBack | docs/gc-font-tool.cpp:620-632 | The packed bytes stand for the old bits and the new one, most significant first. |
| MaskBits.MaskReader.PopFront | docs/gc-font-tool.cpp:653-665 | Delivers the next bit of the packed stream, or none at the end of the input. |
| MaskBits.Pushed | docs/gc-font-tool.cpp:620-632 | Setting one bit of the last byte disturbs no other bit. |
| MaskBits.MaskOfPacked | docs/gc-font-tool.cpp:645-671 | A reader of the packed bytes sees the bits that were pushed. |
| MaskBits.StreamIsNumeral | docs/gc-font-tool.cpp:28-34 | The mask stream is the binary numeral that its bytes write down, the first bit in front. |
| Yay0.Decompress | docs/gc-font-tool.cpp:861-922 | The answer on every input, malformed headers, truncated streams, bad offsets and 32-bit wrap-around included. |
| Yay0.ReplayLink | docs/gc-font-tool.cpp:910-911 | A link is copied byte by byte, so it may overlap what it produces. |
| Yay0Compress.FindLink | docs/gc-font-tool.cpp:789-824 | The best link inside the window: no other is longer, except by one byte at the very end of the input. |
| Yay0Compress.CountRepeated | docs/gc-font-tool.cpp:795-808 | How far the input repeats, up to one more than the longest link or the end of the input. |
| Yay0Compress.Compress | docs/gc-font-tool.cpp:777-858 | The file is an encoding of the input, grows by no more than an eighth and seventeen bytes, and decompresses to the input whenever 32 bits can address both. |
| Yay0Compress.ReplayRepeats | docs/gc-font-tool.cpp:910-911 | Copying a repetition continues the input, also when it overlaps itself. |
| Yay0Compress.StepAt | docs/gc-font-tool.cpp:882-913 | On an encoded file the decoder reads token after token, keeping its three cursors in step. |
| Yay0Compress.RoundTrip | docs/gc-font-tool.cpp:861-922 | Decompression undoes every encoding, greedy or not. |
| Yay0.LinkRange | docs/gc-font-tool.cpp:41-49 | The links that can be expressed are just those that sixteen bits, and a byte where the count in them is 0, stand for. |
| Yay0Compress.ExampleDecompressed | docs/gc-font-tool.cpp:20-49 | A file byte by byte, with literals, a short and a long link, and what it decompresses to. |
| Font.I2Encode | docs/gc-font-tool.cpp:925-968 | Every stored pair of bytes holds the top two bits of the eight pixels that belong to its block and row. |
| Font.I2Decode | docs/gc-font-tool.cpp:971-1016 | Every pixel is the grey level of its two bits, in its place. |
| Font.SlotInverse | docs/gc-font-tool.cpp:945-949 | The place of a block row in the bitmap determines the block row. |
| Font.StoredInverse | docs/gc-font-tool.cpp:991-995 | Every run of eight pixels is the place of exactly one block row. |
| Font.DecodeEncode | docs/gc-font-tool.cpp:925-1016 | Decoding an encoded pixmap of whole blocks gives every pixel quantized to four levels, in its place. |
| Font.EncodeDecode | docs/gc-font-tool.cpp:925-1016 | Encoding a decoded pixmap of whole blocks gives the same bytes. |
| Font.FontPixmapOf | docs/gc-font-tool.cpp:1098-1102 | The pixmap and its width are found in the generated font. |
| Font.HeaderFields | docs/gc-font-tool.cpp:1121-1140 | The number in every field of the header, at the offset where it stands. |
| Font.PackedDigits | docs/gc-font-tool.cpp:925-968 | The four pixels of a byte are its digits in base 4, the first one in front. |
| Font.QuantizedNear | docs/gc-font-tool.cpp:971-1015 | The grey level of a pixel is one of four and has its top two bits. |
| Font.FntToBmp | docs/gc-font-tool.cpp:1094-1111 | The body of the bitmap, for every input file. |
| Font.FontRoundTrip | docs/gc-font-tool.cpp:1094-1145 | The bitmap of a font made from a 512-wide pixmap of whole blocks is that pixmap, quantized. |
| Font.PixmapToFnt | docs/gc-font-tool.cpp:1261-1262 | Scrambling, generating and compressing, and then converting to a bitmap, gives every pixel p as (p >> 6) * 0x55 in its place. |
| ScalarLimbs.Fold | Externals/ed25519/sc.c:78-84 | Moving a limb down by twelve limbs takes a multiple of l away; no limb leaves 64 bits. |
| ScalarLimbs.Carry | Externals/ed25519/sc.c:120-122 | A carry, rounded or floored, keeps the value and leaves the limb in range. |
| ScalarLimbs.ReduceLimbs | Externals/ed25519/sc.c:78-313 | All folds and carries in their order leave twelve digits that stand for the value modulo l, below l, without 64-bit overflow. |
| ScalarLimbs.BalancedBound | Externals/ed25519/sc.c:195-237 | Balanced limbs keep the value away from the next power of two, which is what makes the last two folds enough. |
| ScalarLimbs.TopDigit | Externals/ed25519/sc.c:238-280 | After the first floor carries the top limb is 0 or -1, and folding it gives a number from 0 to l - 1. |
| ScalarBytes.Limbs64Value | Externals/ed25519/sc.c:36-59 | The 24 limbs loaded from 64 bytes stand for the same number. |
| ScalarBytes.Limbs32Value | Externals/ed25519/sc.c:363-398 | The 12 limbs loaded from 32 bytes stand for the same number. |
| ScalarBytes.PackedValue | Externals/ed25519/sc.c:315-346 | The 32 bytes written stand for the number of the twelve limbs, also when the top limb is 2^21. |
| ScalarBytes.Store | Externals/ed25519/sc.c:315-346 | The 32 bytes at the destination stand for the limbs; no other byte changes. |
| Scalar.ScReduce | Externals/ed25519/sc.c:35-347 | Overwrites the first 32 of 64 bytes with their value modulo l. |
| Scalar.ScMulAdd | Externals/ed25519/sc.c:362-809 | Writes (a * b + c) modulo l for all 32-byte a, b and c. |
| Scalar.ProductValue | Externals/ed25519/sc.c:447-470 | The 24 sums of limb products stand for a * b + c. |
| Recoding.Slide | Externals/ed25519/ge.c:25-58 | For every scalar below 2^255: digits zero or odd from -15 to 15, each followed by four zeros, that add up to the scalar. |
| Recoding.SlideWindow | Externals/ed25519/ge.c:34-57 | One window takes up or carries on its bits and keeps the sum. |
| Recoding.WhichBranch | Externals/ed25519/ge.c:36-55 | A bit of the window is added up to distance 3, subtracted with a carry at distance 4, and never beyond. |
| Recoding.NeverDropped | Externals/ed25519/ge.c:42-50 | The carry always finds a zero before the digits end. |
| Recoding.CarryUp | Externals/ed25519/ge.c:42-50 | The carry loop adds one at the place of the subtracted bit. |
| Recoding.Radix16 | Externals/ed25519/ge.c:394-411 | Digits from -8 to 8 in base 16 that add up to the scalar. |
| ScalarMult.OddMultiples | Externals/ed25519/ge.c:77-100 | The table of the first eight odd multiples. |
| ScalarMult.DoubleScalarMult | Externals/ed25519/ge.c:67-130 | a * A + b * B for all a and b below 2^255. |
| ScalarMult.Select | Externals/ed25519/ge.c:356-375 | The conditional moves select b * 256^pos * B for b from -8 to 8. |
| ScalarMult.Equal | Externals/ed25519/ge.c:333-341 | The borrow of a 64-bit subtraction from the exclusive or of two bytes is 1 exactly if they are equal. |
| ScalarMult.ScalarMultBase | Externals/ed25519/ge.c:386-434 | a * B for all a with a top byte of at most 127. |
| ScalarMult.Alternating | Externals/ed25519/ge.c:414-433 | Sixteen times the odd digits plus the even digits, in powers of 256, is the scalar. |
| Field.Carry | Externals/ed25519/fe.c:712-714 | A carry keeps the value, and from limb 9 to limb 0 nineteenfold keeps it modulo 2^255 - 19. |
| Field.Mul | Externals/ed25519/fe.c:556-765 | Within the documented bounds the result is congruent to the product, within the tighter output bounds, and no intermediate leaves 32 or 64 bits. |
| Field.Sq | Externals/ed25519/fe.c:982-1127 | The same for the square. |
| Field.Sq2 | Externals/ed25519/fe.c:1145-1300 | The same for twice the square. |
| Field.ProductValue | Externals/ed25519/fe.c:691-700 | The ten sums, with their factors 2 and 19, are congruent to the product. |
| Field.SquareIsProduct | Externals/ed25519/fe.c:1006-1070 | The 55 products of squaring give the limbs of multiplying by itself. |
| Field.TermValue | Externals/ed25519/fe.c:577-690 | One product of limbs, with its factor, counts what its two limbs count together. |
| FieldBytes.LoadedValue | Externals/ed25519/fe.c:297-307 | The shifted loads stand for the number of the bytes without its top bit. |
| FieldBytes.FromBytes | Externals/ed25519/fe.c:297-360 | The result is congruent to the number of the bytes without its top bit, within the bounds of a product. |
| FieldBytes.DocumentedBounds | Externals/ed25519/fe.c:523-533 | The bounds are the documented ones: 1.65 and 1.1 times 2^26 for what comes in, 1.01 times 2^25 for what goes out. |
| FieldBytes.QuotientOf | Externals/ed25519/fe.c:1408-1418 | The chain of shifts finds the quotient of the value by 2^255 - 19. |
| FieldBytes.Estimate | Externals/ed25519/fe.c:1359-1384 | Why the rounded estimate from the top limb leads to the exact quotient. |
| FieldBytes.Canonical | Externals/ed25519/fe.c:1420-1450 | The limbs of the unique representative below 2^255 - 19, within 32 bits throughout. |
| FieldBytes.PackedValue | Externals/ed25519/fe.c:1459-1490 | The 32 bytes stand for the number of the ten digits. |
| FieldBytes.ToBytes | Externals/ed25519/fe.c:1386-1491 | The bytes of the value modulo 2^255 - 19. |
| FieldPower.Invert | Externals/ed25519/fe.c:364-448 | The chain of squarings and products computes the power p - 2. |
| FieldPower.Pow22523 | Externals/ed25519/fe.c:881-966 | The chain of squarings and products computes the power (p - 5) / 8. |
| FieldPower.SqTimes | Externals/ed25519/fe.c:392-396 | Repeated squaring computes the power 2^count. |
| Sha512.Context.Update | Externals/ed25519/sha512.c:171-211 | The context stands for the old message and the new part, however the message is split. |
| Sha512.Context.Final | Externals/ed25519/sha512.c:218-265 | The output is a function of the whole message only. |
| Sha512.OneShot | Externals/ed25519/sha512.c:267-275 | The same digest for a message given at once. |
| Sha512.HashIsDigest | Externals/ed25519/sha512.c:229-257 | Below 2^64 bits the output is the fold of the compression function over the message padded as in section 5.1.2 of FIPS 180-4. |
| Sha512.InitialWord | Externals/ed25519/sha512.c:152-159 | Word i of the initial state is the fractional part of the square root of the i-th prime. |
| Sha512.PaddingNumeral | Externals/ed25519/sha512.c:229-256 | The padding as a binary numeral: a one, zeros, and the length of the message; and no block longer than that takes. |
| Sha512.StoredNumeral64 | Externals/ed25519/sha512.c:65-69 | What is stored as 64 bits writes down the value in base 256, the most significant byte first. |
| Sha512Compress.Compress | Externals/ed25519/sha512.c:91-143 | The rounds with rotating registers, eight at a time, compute what section 6.4.2 of FIPS 180-4 says with its moving variables, message schedule and sums modulo 2^64. |
| Sha512Compress.Rnd | Externals/ed25519/sha512.c:112-117 | One round in place on any rotation of the eight registers is one round of the standard. |
| Sha512Compress.RoundConstant | Externals/ed25519/sha512.c:16-57 | Constant i is the fractional part of the cube root of the i-th prime. |
| Words.SameSigmas | Externals/ed25519/sha512.c:61-85 | The shifts and ors of the macros are the rotations of the standard. |
| Words.SameChoice | Externals/ed25519/sha512.c:78-78 | The choice function of the code is that of the standard. |
| Words.SameMajority | Externals/ed25519/sha512.c:79-79 | The majority function of the code is that of the standard. |
| Bytes.StoredNumeral | docs/gc-font-tool.cpp:738-749 | The same for 16 and 32 bits. |
| Sha512.OneBlock | Externals/ed25519/sha512.c:232-257 | Padding that fits the current block is the standard padding. |
| Sha512.TwoBlocks | Externals/ed25519/sha512.c:232-257 | Padding that needs a further block is the standard padding. |
| Ed25519.CreateKeypair | Externals/ed25519/keypair.c:6-15 | The private key is the clamped hash of the seed, bit 254 set and bit 255 and the low three bits clear, and the public key encodes that multiple of the base point. |
| Ed25519.ClampedIsClamping | Externals/ed25519/keypair.c:10-13 | The private scalar lies between 2^254 and 2^255, is a multiple of 8, and has the other bits of the hash; the upper half of the hash is kept. |
| Ed25519.Sign | Externals/ed25519/sign.c:7-31 | R encodes r * B, and S is (h * a + r) modulo l. |
| Ed25519.Verify | Externals/ed25519/verify.c:47-76 | Accepts exactly when the top bits of S are clear, the key decodes and R encodes h * (-A) + S * B. |
| Ed25519.ConstTimeEqual | Externals/ed25519/verify.c:6-45 | The or of all 32 exclusive ors is zero exactly if all bytes agree. |
| Ed25519.AcceptedIff | Externals/ed25519/verify.c:54-76 | Under the public key of a, exactly the signatures with R encoding (S - h * a) * B and the top bits clear are accepted. |
| Ed25519.SignedVerifies | Externals/ed25519/sign.c:14-30 | Every signature made with a key pair is accepted for its message (RFC 8032, sections 5.1.5 to 5.1.7). |
| Ed25519.PointMod | Externals/ed25519/sign.c:23-29 | Scalars that agree modulo l give the same point. |

## Left out

The repository has many more components; four self-contained ones are modelled. Of these, the following is not.

- The configuration of FatFs is that of its configuration header: writable, long names, 512-byte sectors, private file buffers. exFAT, fast seek, locks, string functions, GPT, pattern search and volume labels are switched off or not modelled.
- The physical drive: the medium is a sequence of sectors at least as long as the volume, any transfer may fail unless the medium is said to be reliable, and a failed write is taken to leave the sectors as they were.
- FatDir.Dir.Register: the digits of a numbered short name are a parameter, as is the conversion to upper case.
- FatDir.Dir.Next: after a disk error in the middle of stretching a directory nothing is promised about the object.
- Removing names, creating subdirectories with their dot entries, following paths, and the directory side of `f_open` and `f_sync`; time stamps, the positioning of files opened for appending, `fsi_flag` and the FSInfo sector.
- FatFresh.FormattedVolume: the boot sector reaches the mount checks as its fields; its bytes and the partition table are left out.
- One file is open at a time; the pointer and buffer of a file after an aborted call are not described, as the source makes such a file unusable.
- Masks, shifts and bitwise or of disjoint fields are written as division, remainder and sum.
- FatVolume.Volume.MoveWindow: sectors of the second FAT are excluded; no code of the filesystem brings them into the window.
- FatFormat.FormatterMountAgree: sector contents other than the geometry are left out, and so is the search for a volume on the drive.
- FatRun.Run: the bytes that a seek beyond the end adds are unspecified, as the source says.
- StronglyConnected.Tarjan.StronglyConnectedComponents: Python's recursion limit and its dictionary order are not modelled; the keys are visited in an arbitrary order.
- Yay0Compress.Compress: the round trip needs input and file below 2^32 bytes, since sizes and offsets have 32 bits and the decoder's cursors wrap around.
- Font.I2Encode: a width below one block divides by zero in the source and is excluded, as is a width of zero in `Font.I2Decode`; index arithmetic is not wrapped to 32 bits, so images of 2^32 bytes are outside the model.
- Font.HeaderFields: the comment on the font format puts the grey levels at 0x2A, the code at 0x2C; the model follows the code.
- Font.FntToBmp: the bitmap header is left out; a data start behind the end of the font, which is undefined in the source, counts as invalid.
- FreeType rendering, dithering, file access and the command line of the font tool.
- Recoding.Slide: scalars of 2^255 and above, whose carry may run off the end, are excluded; the callers pass scalars below 2^253 and below l.
- ScalarMult.DoubleScalarMult: points are elements of an abstract commutative group; the projective coordinates and the group law of the curve are not part of the model, and the tables of precomputed points are assumed to hold the multiples they are meant to hold.
- FieldPower.Invert: that the power p - 2 is the inverse is Fermat's theorem and needs that p is prime, which is not proved.
- Field: addition, subtraction, negation, conditional swaps and the multiplication by 121666 would only add easy members.
- Sha512.Context.Update: the compression function is a parameter, of which `Sha512Compress.Standard` is the instance of the code; null pointers are not modelled.
- Ed25519.SignedVerifies: encoding and decoding of points are parameters with the law that decoding an encoded point gives its negative; the Montgomery ladder of the key exchange and the scalar addition to keys are left out.
- Shifting a negative carry to the left is taken as multiplication, as compilers do.
