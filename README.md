# msdosfs cluster chains and SD/MMC register fields, in Dafny

This project models two pieces of the NetBSD kernel.

**The FAT cluster-chain engine of msdosfs** (`sys/fs/msdosfs/msdosfs_fat.c`):

- how a FAT12, FAT16 or FAT32 entry is read and written in the table (`msdosfs_fatentry`);
- the arithmetic that finds the FAT block holding a byte of the table (`fatblock`);
- the in-core bitmap of clusters in use and the free-cluster counter
  (`usemap_alloc`, `usemap_free`, `msdosfs_fillinusemap`);
- cluster allocation:
  - `chainlength` measures a free run;
  - `chainalloc` marks a run in use;
  - `fatchain` links a run into a chain;
  - `msdosfs_clusteralloc` searches for a run, starting from a pseudo-random point and wrapping round;
- freeing (`msdosfs_clusterfree`, `msdosfs_freeclusterchain`);
- the per-file cache of (file-relative cluster, disk cluster) hints (`msdosfs_fc_lookup`, `msdosfs_fc_purge`);
- `msdosfs_pcbmap`, which maps a file-relative cluster to its disk block by walking the chain;
- `msdosfs_extendfile`, which grows a file by allocating runs and linking them to its end.

The mounted volume (`struct msdosfsmount`) is the class `FatMount.Mount`:

- the current FAT copy is a byte array;
- the bitmap is an array of 32-bit words;
- the counter, the geometry and the FAT-modified flag are fields.

A file (`struct denode`) is the class `FatDenode.Denode`, with its three-slot hint cache as an array.

The pure side of the model is split across five modules:

- `FatCodec`: the entry codec;
- `FatGeometry`: the geometry and `fatblock` arithmetic;
- `UseMap`: the bitmap as a value;
- `FatTable`: the table after a chain is linked or freed, and the chain walks;
- `FatExtend`: the chain `msdosfs_extendfile` grows, turn by turn (`Grown`, `Stands`).

Each method is proved against these modules. Their properties are proved as lemmas.

**The response-field extractors of the SD/MMC stack** (`sys/dev/sdmmc/sdmmcreg.h`), in module `SdMmcReg`:

- `__bitfield`;
- `MMC_RSP_BITS`;
- the CSD size and capacity macros;
- the extension-register address fields.

Machine words are `Words.Word`, a sequence of 32 bits. The C bit operators and `ffs` are defined on it bit by bit. `Num`/`Value` give its number.

## Model

| member | source | states |
|---|---|---|
| `FatCodec.GetPutUShort` | sys/fs/msdosfs/msdosfs_fat.c:634-637 | `getushort` after `putushort` at the same offset yields the value stored, modulo 2^16 |
| `FatCodec.GetPutULong` | sys/fs/msdosfs/msdosfs_fat.c:644-647 | `getulong` after `putulong` yields the value stored, modulo 2^32 |
| `FatCodec.PutUShort` | sys/fs/msdosfs/msdosfs_fat.c:634-637 | a 16-bit store changes only its two bytes |
| `FatCodec.PutULong` | sys/fs/msdosfs/msdosfs_fat.c:644-647 | a 32-bit store changes only its four bytes |
| `FatCodec.ReadSlot` | sys/fs/msdosfs/msdosfs_fat.c:613-621 | a read entry is the 16/32-bit slot at the entry's offset, shifted a nibble for odd FAT12 clusters, masked to the width; never above `pm_fatmask` |
| `FatCodec.Fat12Offset` | sys/fs/msdosfs/msdosfs_fat.c:606 | a FAT12 entry lies at byte `cn * 3 / 2`: `3 * (cn / 2)`, plus one for odd clusters |
| `FatCodec.WriteOdd12` | sys/fs/msdosfs/msdosfs_fat.c:625-635 | an odd FAT12 set keeps the low nibble at its offset and stores the value in the 12 bits above it |
| `FatCodec.WriteEven12` | sys/fs/msdosfs/msdosfs_fat.c:625-635 | an even FAT12 set keeps the high nibble of its second byte and stores the value in the 12 bits below it |
| `FatCodec.WriteFrame` | sys/fs/msdosfs/msdosfs_fat.c:623-648 | a set writes only the bytes of its own slot |
| `FatCodec.ReadAfterWrite` | sys/fs/msdosfs/msdosfs_fat.c:613-648 | reading an entry after setting it yields the value set, masked to the width |
| `FatCodec.WriteKeepsBits` | sys/fs/msdosfs/msdosfs_fat.c:625-647 | a set keeps the neighbouring FAT12 nibble and the reserved top nibble of a FAT32 entry |
| `FatCodec.WriteOther` | sys/fs/msdosfs/msdosfs_fat.c:623-648 | setting one entry leaves every other entry's read value, and its slot, unchanged, even where FAT12 entries share a byte |
| `FatCodec.NextOffset` | sys/fs/msdosfs/msdosfs_fat.c:704-717 | `bo` advancing by the entry width, plus one byte after an odd FAT12 cluster, lands on the next cluster's entry |
| `FatCodec.TopAfterSet` | sys/fs/msdosfs/msdosfs_fat.c:639-647 | a FAT32 set keeps the top nibble of the slot it writes |
| `FatCodec.SetEffect` | sys/fs/msdosfs/msdosfs_fat.c:623-648 | the effect of one set on any entry c: c reads the value set if it was written, else as before; FAT32 top nibbles are kept |
| `FatGeometry.FatBlock` | sys/fs/msdosfs/msdosfs_fat.c:141-161 | `fatblock`: the offset within the block is below the FAT block size |
| `FatGeometry.FatBlockSplit` | sys/fs/msdosfs/msdosfs_fat.c:146-149 | `fatblock`'s block number, size (cut at the end of the FAT, in `u_long`) and offset, with the division spelled out |
| `FatGeometry.NoStraddle` | sys/fs/msdosfs/msdosfs_fat.c:141-161 | with blocks a multiple of 4 bytes (and of 3 for FAT12), no entry straddles two FAT blocks |
| `FatGeometry.EntryInBlock` | sys/fs/msdosfs/msdosfs_fat.c:303-309 | every data-cluster entry that starts in the block `fatblock` names ends in it, so the `bo >= bsize` check never fires |
| `FatGeometry.FatBlockCovers` | sys/fs/msdosfs/msdosfs_fat.c:141-161 | the block holds the byte asked for, starts at its first sector's byte and ends inside the FAT |
| `FatGeometry.BlockWindow` | sys/fs/msdosfs/msdosfs_fat.c:141-161 | the block `fatblock` names is a window of the FAT that every entry starting in it fits in |
| `Words.LowestSetFrom` | sys/fs/msdosfs/msdosfs_fat.c:749 | the first set bit at or after bit k, counted from 1, with all bits between clear |
| `Words.Ffs` | sys/fs/msdosfs/msdosfs_fat.c:749 | `ffs`: 0 exactly for a zero word, else the lowest set bit counted from 1 |
| `UseMap.SetBit` | sys/fs/msdosfs/msdosfs_fat.c:510-515 | `usemap_alloc`'s bitmap: exactly bit c set, every other bit kept |
| `UseMap.ClearBit` | sys/fs/msdosfs/msdosfs_fat.c:518-523 | `usemap_free`'s bitmap: exactly bit c clear, every other bit kept |
| `UseMap.SetRun` | sys/fs/msdosfs/msdosfs_fat.c:784-785 | chainalloc's bitmap: the run's bits set, all others kept |
| `UseMap.RunFromIs` | sys/fs/msdosfs/msdosfs_fat.c:737-765 | the free run from c is all clear and ends at a set bit or at the end of the bitmap |
| `UseMap.RunFromUnique` | sys/fs/msdosfs/msdosfs_fat.c:737-765 | any clear run ending at a set bit or at the bitmap's end is the measured run |
| `UseMap.RunInside` | sys/fs/msdosfs/msdosfs_fat.c:737-765 | with the non-data clusters in use, a free run stays among the data clusters |
| `UseMap.FullMap` | sys/fs/msdosfs/msdosfs_fat.c:965-966 | an all-ones bitmap counts no free cluster |
| `UseMap.SetBitCount` | sys/fs/msdosfs/msdosfs_fat.c:510-515 | allocating a free data cluster counts one free cluster less; an allocated or out-of-range cluster changes no count |
| `UseMap.ClearBitCount` | sys/fs/msdosfs/msdosfs_fat.c:518-523 | freeing an allocated data cluster counts one more; freeing a free one changes no count |
| `UseMap.SetRunCount` | sys/fs/msdosfs/msdosfs_fat.c:779-796 | taking a free run of n clusters counts n free clusters less |
| `UseMap.MaskedFfs` | sys/fs/msdosfs/msdosfs_fat.c:746-750 | `ffs` of the word with the bits below s cleared finds the first in-use cluster at or after s |
| `UseMap.ClearFromS` | sys/fs/msdosfs/msdosfs_fat.c:843-846 | the word with the bits below s forced to 1, then complemented, marks exactly the free clusters from bit s on |
| `UseMap.WordRun` | sys/fs/msdosfs/msdosfs_fat.c:746-751 | the free run from bit s of a word ends at the word's next set bit, or runs into the next word |
| `UseMap.WordSet` | sys/fs/msdosfs/msdosfs_fat.c:841-857 | the clusters the scan steps over before the first free one are all in use |
| `UseMap.ScannedAll` | sys/fs/msdosfs/msdosfs_fat.c:841-877 | after both scans, every free run on the volume is shorter than count and no longer than the longest remembered; 0 means none free |
| `FatMount.MapWords` | sys/fs/msdosfs/msdosfs_fat.c:965 | the bitmap has `pm_maxcluster / N_INUSEBITS + 1` words, one bit per cluster 0 .. `pm_maxcluster` |
| `FatMount.ChainLengthOverrun` | sys/fs/msdosfs/msdosfs_fat.c:743-746 | when the file's last cluster is `pm_maxcluster` and `pm_maxcluster + 1` is a multiple of 32, the word chainlength reads is one past the bitmap (FAT16 with `pm_maxcluster` 4095: word 128 of 128) |
| `FatMount.NewStart` | sys/fs/msdosfs/msdosfs_fat.c:838 | the scan start is a cluster number at most `pm_maxcluster` |
| `FatMount.AllocCount` | sys/fs/msdosfs/msdosfs_fat.c:779-796 | taking a free data-cluster run leaves n fewer free clusters and keeps the non-data clusters in use |
| `FatMount.TrailNext` | sys/fs/msdosfs/msdosfs_fat.c:903-943 | freeing the cluster reached and following its old entry extends the freed trail along the original chain |
| `FatMount.PickedStart` | sys/fs/msdosfs/msdosfs_fat.c:820-822 | a preferred start whose free run holds count is taken |
| `FatMount.PickedHit` | sys/fs/msdosfs/msdosfs_fat.c:841-874 | the first cluster met from newst, wrapping round, whose run holds count is taken |
| `FatMount.PickedShort` | sys/fs/msdosfs/msdosfs_fat.c:876-882 | with no run holding count, the preferred start's run is taken when it is not empty, else the first longest run met scanning from newst and wrapping round |
| `FatMount.PickedSome` | sys/fs/msdosfs/msdosfs_fat.c:876-882 | when some cluster is free, the run taken is not empty |
| `FatMount.Mount.FatBlockOf` | sys/fs/msdosfs/msdosfs_fat.c:141-161 | `fatblock`'s results, and that every entry starting in the block fits in it |
| `FatMount.Mount.FatEntry` | sys/fs/msdosfs/msdosfs_fat.c:568-657 | EINVAL outside the data clusters before any read; EIO on a failed read; a get returns the decoded entry; a set writes it as `WriteEntry` and marks the FAT modified |
| `FatMount.Mount.UsemapAlloc` | sys/fs/msdosfs/msdosfs_fat.c:510-515 | bit cn set, counter lowered by one |
| `FatMount.Mount.UsemapFree` | sys/fs/msdosfs/msdosfs_fat.c:518-523 | bit cn cleared, counter raised by one |
| `FatMount.Mount.ClusterFree` | sys/fs/msdosfs/msdosfs_fat.c:526-545 | the cluster freed in the bitmap and the table, with its old entry returned; on a failed set the bit is set again and the counter restored |
| `FatMount.Mount.LinkBlock` | sys/fs/msdosfs/msdosfs_fat.c:690-722 | linking the run's entries that lie in one block, from `cur0` until the run ends or `bo` leaves the block: the table is `Link` after that many writes |
| `FatMount.Mount.FatChain` | sys/fs/msdosfs/msdosfs_fat.c:668-727 | EINVAL for a run outside the data clusters; otherwise the table is `Link` of the run, ending in fillwith; on EIO, a prefix of it |
| `FatTable.LinkEntry` | sys/fs/msdosfs/msdosfs_fat.c:690-722 | after k writes of fatchain, each cluster linked reads as its successor in the run (the last as fillwith); every other entry reads as before; FAT32 top nibbles are kept |
| `FatMount.Mount.ChainLength` | sys/fs/msdosfs/msdosfs_fat.c:737-765 | as written: the free run from start cut at count, provided the word holding start is inside the bitmap |
| `FatMount.Mount.FirstInUse` | sys/fs/msdosfs/msdosfs_fat.c:746-751 | the first in-use cluster at or after bit s, counted from 1, or 0 |
| `FatMount.Mount.WholeWords` | sys/fs/msdosfs/msdosfs_fat.c:755-763 | the loop adds the free run over the following words, cut at count |
| `FatMount.Mount.ChainLengthChecked` | sys/fs/msdosfs/msdosfs_fat.c:737-765 | chainlength with the bitmap bound checked: the free run from start cut at count, for every start |
| `FatMount.Mount.AllocRun` | sys/fs/msdosfs/msdosfs_fat.c:784-785 | the bitmap is `SetRun` of the run; the counter is lowered by count |
| `FatMount.Mount.ChainAlloc` | sys/fs/msdosfs/msdosfs_fat.c:779-796 | the run marked in use and linked; when linking fails the bitmap and counter stay changed |
| `FatMount.Mount.FirstFree` | sys/fs/msdosfs/msdosfs_fat.c:843-846 | the first free cluster at or after bit s, counted from 1, or 0 |
| `FatMount.Mount.ScanRange` | sys/fs/msdosfs/msdosfs_fat.c:841-857 | the hit is the first free cluster scanned whose run holds count; without one, every free run scanned is shorter than count and the longest is remembered |
| `FatMount.Mount.FindRun` | sys/fs/msdosfs/msdosfs_fat.c:810-877 | the run taken satisfies `Picked`; none exactly when no cluster is free |
| `FatMount.Mount.ClusterAlloc` | sys/fs/msdosfs/msdosfs_fat.c:810-883 | ENOSPC exactly when nothing is free, with nothing changed; otherwise the run `Picked` names (the preferred start, else the first run holding count from newst wrapping round, else the start's own run, else the first longest run met) is marked in use and linked to the end mark, EINVAL and EIO as chainalloc gives them; the counter keeps agreeing with the bitmap |
| `FatMount.Mount.TakeRun` | sys/fs/msdosfs/msdosfs_fat.c:879-882 | chainalloc on the picked run keeps the counter agreeing with the bitmap |
| `FatMount.Mount.FreeEntryAt` | sys/fs/msdosfs/msdosfs_fat.c:918-942 | the entry is read (the next cluster) and then stored as free, keeping neighbouring bits |
| `FatMount.Mount.FreeLoop` | sys/fs/msdosfs/msdosfs_fat.c:903-943 | the loop stops off the data clusters or on a failed read, with the trail freed |
| `FatMount.Mount.FreeClusterChain` | sys/fs/msdosfs/msdosfs_fat.c:895-947 | the chain's clusters, in order, freed in the table and the bitmap; the counter agrees for a chain without repeats |
| `FatTable.FreeAllEntry` | sys/fs/msdosfs/msdosfs_fat.c:918-942 | every cluster freed reads as free (FAT32 top nibble kept); every other entry reads as before |
| `FatTable.ClearAllCount` | sys/fs/msdosfs/msdosfs_fat.c:916 | freeing distinct in-use clusters adds one free cluster each |
| `FatTable.DistinctBound` | sys/fs/msdosfs/msdosfs_fat.c:903 | a chain without repeats is no longer than the number of data clusters |
| `FatMount.Mount.MarkAllInUse` | sys/fs/msdosfs/msdosfs_fat.c:965-966 | every bitmap word is all ones |
| `FatMount.Mount.ReadEntryAt` | sys/fs/msdosfs/msdosfs_fat.c:985-994 | the read is the decoded entry of cn |
| `FatMount.Mount.FillStep` | sys/fs/msdosfs/msdosfs_fat.c:974-998 | one cluster scanned: freed in the bitmap and counted exactly when its entry is free |
| `FatMount.Mount.FillInUseMap` | sys/fs/msdosfs/msdosfs_fat.c:954-1001 | the bitmap marks in use exactly the clusters that are not free data clusters, and the counter agrees with it |
| `FatTable.WalkChain` | sys/fs/msdosfs/msdosfs_fat.c:271-333 | the pcbmap walk reaches findcn exactly on the chain's cluster there, and fails only on a corrupt link |
| `FatTable.WalkEof` | sys/fs/msdosfs/msdosfs_fat.c:271-343 | the walk hits the end at index n exactly on an end mark of the chain, reporting the cluster at n - 1 as the last |
| `FatTable.HintWalk` | sys/fs/msdosfs/msdosfs_fat.c:256-271 | a walk started from a hint the chain bears out ends where the walk from the start cluster ends |
| `FatDenode.ClosestIsBest` | sys/fs/msdosfs/msdosfs_fat.c:351-369 | the slot picked is usable with the largest index (the first on a tie); none only when no slot is usable |
| `FatDenode.HintIsBest` | sys/fs/msdosfs/msdosfs_fat.c:351-369 | fc_lookup yields the best usable hint, or leaves its outputs untouched |
| `FatDenode.Purge` | sys/fs/msdosfs/msdosfs_fat.c:376-386 | exactly the slots indexed frcn or more are emptied; the rest are kept |
| `FatDenode.PurgeKeepsBelow` | sys/fs/msdosfs/msdosfs_fat.c:376-386 | after a purge, a lookup can only pick a hint below frcn |
| `FatDenode.HintedWalk` | sys/fs/msdosfs/msdosfs_fat.c:256-344 | with hints the chain bears out, the cache changes how far pcbmap walks, never where it ends |
| `FatDenode.RecordedHints` | sys/fs/msdosfs/msdosfs_fat.c:331-341 | the hints pcbmap records are borne out by the chain |
| `FatDenode.WalkLast` | sys/fs/msdosfs/msdosfs_fat.c:335-343 | a walk ending past where it began reports a data cluster as the last |
| `FatDenode.ReleaseCount` | sys/fs/msdosfs/msdosfs_fat.c:526-545 | freeing an allocated data cluster counts one more, and setting it again restores the count |
| `FatDenode.Denode.FcLookup` | sys/fs/msdosfs/msdosfs_fat.c:351-369 | the outputs are `Hint` of the cache: the best usable slot, or the inputs kept |
| `FatDenode.Denode.FcPurge` | sys/fs/msdosfs/msdosfs_fat.c:376-386 | the cache becomes `Purge` of the old cache |
| `FatDenode.Denode.PcbMap` | sys/fs/msdosfs/msdosfs_fat.c:182-344 | root directory: E2BIG past its size, else its block and the bytes left; other files: the result of `Walk` from the hint fc_lookup picks, with the hint recorded (LASTMAP on success, LASTFC on E2BIG), EINVAL on a corrupt link, EIO on a failed read |
| `FatDenode.Denode.Append` | sys/fs/msdosfs/msdosfs_fat.c:1085-1104 | an empty file starts at cn; otherwise the last cluster is linked to cn, and on failure only cn is freed; the last-cluster hint moves got clusters on |
| `FatDenode.Denode.Grant` | sys/fs/msdosfs/msdosfs_fat.c:1066-1083 | on success a run of 1 .. left data clusters, all free before, now marked in use, taken from the counter and linked to the end mark in the table; a failure grants nothing |
| `FatDenode.Denode.ExtendStep` | sys/fs/msdosfs/msdosfs_fat.c:1054-1104 | one run of free clusters allocated from the cluster after the file's last, marked in use and linked; the table is the run's chain, spliced after the file's last cluster unless the file was empty, which then starts at the run; the last-cluster hint moves to the run's last cluster |
| `FatDenode.Denode.ExtendRuns` | sys/fs/msdosfs/msdosfs_fat.c:1054-1120 | on success count clusters, all free before, are taken, in order, the first of them returned; the bitmap marks exactly them more; the table chains them after the file's last cluster (or from the new start); the last-cluster hint has moved count on to the last of them |
| `FatDenode.Denode.ExtendFile` | sys/fs/msdosfs/msdosfs_fat.c:1021-1123 | the root directory gives ENOSPC unchanged; an empty hint is filled by pcbmap, whose non-E2BIG results return as they are; on success count distinct clusters, free before, are now in use and chained: an empty file starts at the first and links them all; a file whose last cluster was in use has it linked to them; ncp is the first; the counter keeps agreeing with the bitmap |
| `SdMmcReg.Bitfield` | sys/dev/sdmmc/sdmmcreg.h:452-467 | `__bitfield`: 0 for a rejected field; otherwise a word of the field's width |
| `SdMmcReg.BitfieldBits` | sys/dev/sdmmc/sdmmcreg.h:452-467 | bit i of an accepted field is bit start + i of the words laid end to end; the bits above len are clear |
| `SdMmcReg.BitfieldValue` | sys/dev/sdmmc/sdmmcreg.h:452-467 | an accepted field is the len-bit field at bit start of the little-endian number the words hold |
| `SdMmcReg.BitfieldFits` | sys/dev/sdmmc/sdmmcreg.h:466 | the result always fits in len bits |
| `SdMmcReg.BitfieldOneWord` | sys/dev/sdmmc/sdmmcreg.h:457-460 | a field inside one word is that word shifted and masked |
| `SdMmcReg.BitfieldTwoWords` | sys/dev/sdmmc/sdmmcreg.h:462-464 | a straddling field takes its high bits from the next word |
| `SdMmcReg.BitfieldGuard` | sys/dev/sdmmc/sdmmcreg.h:454-455 | the guard accepts exactly non-empty fields of at most 32 bits ending by bit 512 (in `size_t`) |
| `SdMmcReg.MmcRspBits` | sys/dev/sdmmc/sdmmcreg.h:450 | `MMC_RSP_BITS` is `__bitfield` at start - 8, a `size_t` subtraction |
| `SdMmcReg.MmcRspBitsValue` | sys/dev/sdmmc/sdmmcreg.h:450 | for start at least 8, the field at bit start of the response as sent, whatever its CRC byte |
| `SdMmcReg.MmcCsdCapacity` | sys/dev/sdmmc/sdmmcreg.h:240-241 | `(C_SIZE + 1) << (C_SIZE_MULT + 2)`, exactly, never wrapping |
| `SdMmcReg.SdCsdV2Capacity` | sys/dev/sdmmc/sdmmcreg.h:318 | `(V2_C_SIZE + 1) << 10` as a `u_int`: exact except at C_SIZE 0x3FFFFF, which wraps to 0 |
| `SdMmcReg.MmcCsdCSizeOfResponse` | sys/dev/sdmmc/sdmmcreg.h:239 | C_SIZE is the 12-bit field at CSD bit 62 |
| `SdMmcReg.MmcCsdCSizeMultOfResponse` | sys/dev/sdmmc/sdmmcreg.h:242 | C_SIZE_MULT is the 3-bit field at CSD bit 47 |
| `SdMmcReg.SdCsdV2CSizeOfResponse` | sys/dev/sdmmc/sdmmcreg.h:317 | V2_C_SIZE is the 22-bit field at CSD bit 48 |
| `SdMmcReg.ExtRegFno` | sys/dev/sdmmc/sdmmcreg.h:436 | the function number, bits 18..21 of the address |
| `SdMmcReg.ExtRegStartAddr` | sys/dev/sdmmc/sdmmcreg.h:437 | the start address, bits 0..16 |
| `SdMmcReg.ExtRegRoundTrip` | sys/dev/sdmmc/sdmmcreg.h:436-437 | an address with no bits outside the two fields is rebuilt from them |
| `SdMmcReg.ScrReserved2AsWritten` | sys/dev/sdmmc/sdmmcreg.h:374 | as written, `SCR_RESERVED2` passes the guard after two `size_t` wraps and reads words 2^59 - 1 and 2^59 |
| `SdMmcReg.MmcRspBitsChecked` | sys/dev/sdmmc/sdmmcreg.h:450-467 | corrected `MMC_RSP_BITS`: 0 for a field in the CRC byte or past bit 512; otherwise as `MMC_RSP_BITS` |
| `SdMmcReg.MmcRspBitsCheckedSafe` | sys/dev/sdmmc/sdmmcreg.h:450-467 | the corrected extractor reads only inside a 16-word response, and it agrees with `MMC_RSP_BITS` on every well-formed field |
| `SdMmcReg.ScrReserved2Checked` | sys/dev/sdmmc/sdmmcreg.h:374 | through the corrected extractor, `SCR_RESERVED2` yields 0 |
| `FatCodec.EndMark` | sys/fs/msdosfs/msdosfs_fat.c:319-322 | `CLUST_EOFE` masked to the table width is the width's mask, an end-of-chain mark at or above the reserved values |
| `FatCodec.WriteEntry` | sys/fs/msdosfs/msdosfs_fat.c:623-653 | the set path of `msdosfs_fatentry` as a table value: the table keeps its size; what a set reads back is stated by `FatCodec.ReadAfterWrite`, `FatCodec.WriteOther` and `FatCodec.SetEffect` |
| `FatMount.Mount.PutEntryAt` | sys/fs/msdosfs/msdosfs_fat.c:623-653 | the bytes of the block read change exactly as `WriteEntry` of the table at cn |
| `FatMount.Mount.ChainWrite` | sys/fs/msdosfs/msdosfs_fat.c:694-721 | one turn of fatchain's loop: the table after k writes becomes the table after k + 1, and `bo` lands on the next cluster's entry |
| `FatMount.Mount.ScanStep` | sys/fs/msdosfs/msdosfs_fat.c:841-857 | one turn of a scan: it moves forward; a hit is a free cluster whose run holds count; otherwise everything scanned is shorter than count, and a run remembered in place of the old one is longer than every run scanned before it |
| `FatMount.Mount.Search` | sys/fs/msdosfs/msdosfs_fat.c:838-882 | both scans: none exactly when no cluster is free; otherwise the run satisfies `Picked` |
| `FatMount.Mount.SecondScan` | sys/fs/msdosfs/msdosfs_fat.c:859-882 | the scan from 0 to newst and the final choice: none exactly when no cluster is free; otherwise the run satisfies `Picked` |
| `FatMount.FirstLongest` | sys/fs/msdosfs/msdosfs_fat.c:848-851 | the run kept by `l > foundl` is the first longest one met from newst, wrapping round |
| `FatMount.Mount.FreeStep` | sys/fs/msdosfs/msdosfs_fat.c:903-943 | one turn of freeclusterchain's loop: the cluster is freed in the bitmap and the table and the trail grows by it; a failed read changes nothing |
| `FatMount.FreedAgree` | sys/fs/msdosfs/msdosfs_fat.c:903-943 | freeing a trail of distinct in-use data clusters adds exactly one free cluster per entry, as the counter does |
| `FatMount.AllocThenFree` | sys/fs/msdosfs/msdosfs_fat.c:779-796 | freeing the chain a successful chainalloc links visits exactly its run, in order, and gives the bitmap back as it was |
| `FatMount.LinkTrail` | sys/fs/msdosfs/msdosfs_fat.c:690-722 | the chain walked from a linked run's start is that run, in order, up to the end mark |
| `FatMount.RunRestored` | sys/fs/msdosfs/msdosfs_fat.c:784-785 | clearing the bits of a run set by chainalloc gives the bitmap back, and the free count back by n |
| `FatTable.Run` | sys/fs/msdosfs/msdosfs_fat.c:690-722 | the run start .. start + count - 1, in order |
| `FatTable.RunEntry` | sys/fs/msdosfs/msdosfs_fat.c:690-722 | after `fatchain(start, count, CLUST_EOFE)` each cluster of the run reads as the next one, the last as the end mark |
| `FatTable.RunOther` | sys/fs/msdosfs/msdosfs_fat.c:690-722 | `fatchain` leaves every entry outside the run reading as before |
| `FatTable.LinkRun` | sys/fs/msdosfs/msdosfs_fat.c:690-722 | after `fatchain` the run is linked cluster to cluster up to the end mark |
| `FatTable.LinkChained` | sys/fs/msdosfs/msdosfs_fat.c:690-722 | a linked run is a chain of its own |
| `FatTable.ChainedChain` | sys/fs/msdosfs/msdosfs_fat.c:271-320 | following the entries of a chain from its first cluster visits its clusters in order and then an end mark that is no data cluster |
| `FatTable.ChainOfLink` | sys/fs/msdosfs/msdosfs_fat.c:690-722 | the run `fatchain` links, walked from its start, visits start + i at step i and ends on an end mark after count steps |
| `FatTable.ChainNext` | sys/fs/msdosfs/msdosfs_fat.c:271-320 | one more step of the walk reads the entry of the cluster reached |
| `FatTable.ClearRun` | sys/fs/msdosfs/msdosfs_fat.c:526-545 | freeing the bits of a run just set gives back the original bitmap |
| `FatTable.Walk` | sys/fs/msdosfs/msdosfs_fat.c:271-343 | the walk of `msdosfs_pcbmap`: a mapped result is at findcn (or where it started) on a cluster that is no end mark; an end is met between where it started and findcn |
| `FatTable.LinkKeeps` | sys/fs/msdosfs/msdosfs_fat.c:690-722 | one more write of fatchain keeps what LinkEntry states for entry c |
| `UseMap.SameBits` | sys/fs/msdosfs/msdosfs_fat.c:510-523 | two bitmaps of one size with the same bits are the same bitmap |
| `FatExtend.SpliceEntries` | sys/fs/msdosfs/msdosfs_fat.c:1085-1096 | after the splice the file's chain still links cluster to cluster, its last cluster names the run's first, and the run is linked |
| `FatExtend.ChainJoin` | sys/fs/msdosfs/msdosfs_fat.c:1085-1096 | a threaded chain whose last entry names a linked run forms, with the run, one chain |
| `FatExtend.ChainAppend` | sys/fs/msdosfs/msdosfs_fat.c:1054-1104 | the chain grown by more clusters is the old chain followed by them |
| `FatExtend.GrownStep` | sys/fs/msdosfs/msdosfs_fat.c:1054-1104 | one turn of msdosfs_extendfile's loop keeps `Grown`: the clusters added are distinct, were free, are now the only new bits, and stay chained after the file |
| `FatExtend.GrownChain` | sys/fs/msdosfs/msdosfs_fat.c:1054-1104 | the chain part of `GrownStep`: after the turn the file's chain runs through the new run |
| `FatExtend.GrownFresh` | sys/fs/msdosfs/msdosfs_fat.c:1085-1088 | an empty file's first run, linked by fatchain, is a chain of its own |
| `FatExtend.GrownSplice` | sys/fs/msdosfs/msdosfs_fat.c:1085-1096 | a file chain followed by a run spliced after its last cluster is one chain |
| `FatExtend.SpliceReady` | sys/fs/msdosfs/msdosfs_fat.c:1085-1096 | the file chain grown so far is threaded, without repeats, ends at the last cluster and avoids the new run |
| `FatExtend.GrownBits` | sys/fs/msdosfs/msdosfs_fat.c:1066-1072 | marking a free run adds its clusters, distinct and free at the start, to those marked since then |
| `FatExtend.GrownFile` | sys/fs/msdosfs/msdosfs_fat.c:1021-1123 | `Grown` for the whole of msdosfs_extendfile, spelled out |
| `FatExtend.StandsStep` | sys/fs/msdosfs/msdosfs_fat.c:1054-1104 | one turn of the loop moves the start, the hint and `Grown` on by the run appended |
| `FatExtend.AddMod` | sys/fs/msdosfs/msdosfs_fat.c:1096-1104 | the `u_long` `frcn + 1 + got - 1` of successive turns adds up modulo 2^64 |
| `FatExtend.AddSmall` | sys/fs/msdosfs/msdosfs_fat.c:1087-1104 | a small sum of hint indices does not wrap |
| `FatDenode.Denode.ExtendTurn` | sys/fs/msdosfs/msdosfs_fat.c:1054-1104 | one turn of the loop: on success `Progress` holds with the run appended, its clusters counted from the counter |

## Left out

- `updatefats` and the FAT mirrors (msdosfs_fat.c:398-488): the table is the single current FAT copy, and "marks the FAT modified" is the flag `fmod`.
- Buffer cache (`bread`, `brelse`, `getblk`, `bdwrite`): a block read is a window onto the FAT region held in memory. A read failure is a nondeterministic EIO (`FatMount.Mount.ReadBlock`).
- `bpp`/`bnp` buffer returns and the `DE_CLEAR` zeroing of new clusters in `msdosfs_extendfile` (1105-1119): this is buffer I/O.
- `DPRINTF`, `print_fat_stats` and the `fc_*` statistics counters (88-128, 260-266): they are diagnostics only.
- The `DIAGNOSTIC` checks of `msdosfs_fatentry`'s function code (580-597): the function code is a datatype, so an invalid one cannot be formed.
- The microsecond clock that seeds `msdosfs_clusteralloc` when start is 0 (827-831): it is the parameter `seed`.
- Null output arguments of `msdosfs_pcbmap`, `msdosfs_fatentry` and `msdosfs_clusteralloc`: every output is returned. Where the source leaves a cluster output unwritten (the EINVAL and EIO returns of `msdosfs_pcbmap`, the errors of `msdosfs_clusteralloc`), the model returns 0; a block number or size it leaves unwritten is not constrained. The old contents that `msdosfs_fatentry` leaves unwritten are `None`.
- The `bo >= bsize` EIO check of `msdosfs_pcbmap` (303-309) is not a branch of the model. `FatGeometry.EntryInBlock` proves that it cannot fire.
- denode.h, fat.h, bpb.h, msdosfsmount.h and fsinfo handling are not part of this model. The constants taken from them are written out in the model:
  - `CLUST_*`;
  - the FAT masks;
  - `FC_*` and `FCE_EMPTY`;
  - `N_INUSEBITS`;
  - the error numbers.
- `fc_setcache` and `fc_last_to_nexttolast` are written inline.
- The per-file hint cache has three slots, as the code requires: `fc_last_to_nexttolast` (1052) copies the last-cluster slot into a next-to-last slot that the other two cannot hold.
- The mount-time computation of the geometry is outside this model. `FatGeometry.ValidGeometry` states what the code relies on.
- `pm_freeclustercount` is a `u_long` that the source increments and decrements without bound checks. It is an `int` here: wrap-around is not modelled.
- The other constants of sdmmcreg.h (command numbers, OCR/CSD/CID/SCR/SSR fields beyond those listed): each one is one more `MMC_RSP_BITS`/`__bitfield` instance of the modelled extractor.
- `FatMount.Mount.FreeClusterChain`: the counter is proved to agree with the bitmap only when the freed trail has no repeats and was all in use. On a chain that loops back, the source frees a cluster twice and overcounts.
- `FatDenode.Denode.PcbMap`: the result is stated as the walk from the hint `msdosfs_fc_lookup` picks. `FatDenode.HintedWalk` shows that this equals the walk from the start cluster when the cached hints are borne out by the chain. A cache holding arbitrary values is not constrained further.
- `FatDenode.Denode.ExtendFile`: on a chain that never reaches an end mark, `msdosfs_pcbmap(CLUST_END)` returns 0 and the file is returned unextended with no error (`early`). The model states this case and promises nothing more for it.
- `FatMount.Mount.ChainLength`: it requires that the word holding start be inside the bitmap, because the source reads it unchecked. See Findings.

## Findings

| source | as written | input that shows it | evidently intended | confidence | as-written member | corrected member |
|---|---|---|---|---|---|---|
| sys/fs/msdosfs/msdosfs_fat.c:743-746 | `chainlength` reads `pm_inusemap[start / N_INUSEBITS]` without checking `start <= pm_maxcluster`, and `msdosfs_extendfile` (1069-1070) calls it with the cluster after the file's last | a FAT16 volume with `pm_maxcluster` 4095 and a file whose last cluster is 4095: start 4096 reads word 128 of a 128-word bitmap | return 0 (no free run) when start is past `pm_maxcluster` | not executed | `FatMount.ChainLengthOverrun` | `FatMount.Mount.ChainLengthChecked` |
| sys/dev/sdmmc/sdmmcreg.h:374 | `SCR_RESERVED2` is `MMC_RSP_BITS(scr, 0, 32)`: the `size_t` offset 0 - 8 wraps, the guard's end-offset sum wraps to 24 and accepts it, and `__bitfield` reads words 2^59 - 1 and 2^59 | any SCR response: `SCR_RESERVED2(scr)` | a field that starts in the CRC byte, which is not stored, is rejected and yields 0 | not executed | `SdMmcReg.ScrReserved2AsWritten` | `SdMmcReg.ScrReserved2Checked` |
